/**
 The background script's frame registry and CSS-injection coordinator.

 State: which frame hosts which widget (`widgets`), what every observed
 sub-frame last navigated to and which widget it belongs to (`frames`, kept in
 insertion order), CSS waiting for a frame (`pending`), and the tabs that
 asked for tracking (`activeTabs`), next to the persisted `workspaces`
 document. Every handler is one atomic step; the continuation of
 `injectCssWhenReady` after its settling delay is a separate `Resume` step on
 a `Job`. Browser answers (storage success, `insertCSS`, `tabs.get`) are
 parameters.
 */
module Background {
  import opened Base
  import opened Models
  import Url
  import Ordered
  import Injection
  import Storage

  type WidgetId = string
  type Frames = Ordered.Entries<FrameKey, FrameInfo>

  /** The `${tabId}-${frameId}` key of the frame table. */
  datatype FrameKey = FrameKey(tab: int, frame: int)

  /** An entry of `widgetFrameMap`. */
  datatype Binding = Binding(tab: int, frame: int, originalSrc: string, cssInjected: bool)

  /** An entry of `frameIdToUrlMap`. */
  datatype FrameInfo = FrameInfo(url: string, widget: Option<WidgetId>)

  datatype Registry = Registry(
    widgets: map<WidgetId, Binding>,
    frames: Frames,
    pending: map<WidgetId, string>,
    activeTabs: set<int>)

  /** The registry plus the persisted `workspaces` document (absent when never saved). */
  datatype World = World(reg: Registry, store: Option<AppState>)

  /** A pending `injectCssWhenReady(widget, tab, frame, css)` waiting out its delay;
      `clearAfter` records that its caller deletes the pending entry once it returns. */
  datatype Job = Job(widget: WidgetId, tab: int, frame: int, css: string, clearAfter: bool)

  datatype Request =
    | PrepareWidgetTracking(widgetId: Option<string>, widgetSrc: Option<string>)
    | InjectCss(widgetId: Option<string>, css: Option<string>)
    | UnregisterWidget(widgetId: Option<string>)
    | OtherMessage

  datatype Reply = Reply(success: bool, message: Option<string>, error: Option<string>)

  /** What a message leaves behind: the new world, the response (if one is ever sent), and a spawned job. */
  datatype Handled = Handled(world: World, reply: Option<Reply>, job: Option<Job>)

  const Queued := "CSS queued for later injection"
  const EmptyCss := "CSS was empty"

  function Ok(): Reply { Reply(true, None, None) }
  function OkWith(message: string): Reply { Reply(true, Some(message), None) }
  function Failed(error: string): Reply { Reply(false, None, Some(error)) }

  function KeyOf(b: Binding): FrameKey {
    FrameKey(b.tab, b.frame)
  }

  /** `css && css.trim() !== ""`. */
  predicate HasCss(css: Option<string>) {
    css.Some? && !Blank(css.value)
  }

  /** Some frame entry names `w` as its widget. */
  predicate Links(frames: Frames, w: WidgetId) {
    exists i :: 0 <= i < |frames| && frames[i].1.widget == Some(w)
  }

  /** Frame -> widget half of the mirror: a frame naming a widget is that widget's bound frame. */
  predicate Mirrored(reg: Registry) {
    forall i :: 0 <= i < |reg.frames| && reg.frames[i].1.widget.Some? ==>
      && reg.frames[i].1.widget.value in reg.widgets
      && KeyOf(reg.widgets[reg.frames[i].1.widget.value]) == reg.frames[i].0
  }

  /** The registry invariant every handler keeps. */
  predicate Inv(reg: Registry) {
    Ordered.DistinctKeys(reg.frames) && Mirrored(reg)
  }

  /** Only `cssInjected` flags may differ: the same widgets, bound to the same frames. */
  predicate SameBindings(a: map<WidgetId, Binding>, b: map<WidgetId, Binding>) {
    a.Keys == b.Keys && forall w :: w in a ==> KeyOf(a[w]) == KeyOf(b[w])
  }

  /** Every widget other than `w` keeps its binding, or stays unbound. */
  predicate OthersBoundAsBefore(a: map<WidgetId, Binding>, b: map<WidgetId, Binding>, w: WidgetId) {
    && (forall v :: v in a && v != w ==> v in b && b[v] == a[v])
    && (forall v :: v in b && v != w ==> v in a)
  }

  // ---------------------------------------------------------------------
  // mapWidget / unmapWidget
  // ---------------------------------------------------------------------

  /** Every entry left after removing a key was an entry before, with another key. */
  lemma RemoveKeepsEntries(m: Frames, k: FrameKey)
    requires Ordered.DistinctKeys(m)
    ensures forall i :: 0 <= i < |Ordered.Remove(m, k)| ==>
              Ordered.Remove(m, k)[i] in m && Ordered.Remove(m, k)[i].0 != k
  {
    var r := Ordered.Remove(m, k);
    forall i | 0 <= i < |r| ensures r[i] in m && r[i].0 != k {
      Ordered.GetAt(r, i);
      assert Ordered.Get(r, r[i].0) == Some(r[i].1);
    }
  }

  /** `unmapWidget`: forget the binding and the frame entry at its key. */
  function Unmap(reg: Registry, w: WidgetId): (r: Registry)
    ensures r.widgets == reg.widgets - {w}
    ensures r.pending == reg.pending && r.activeTabs == reg.activeTabs
    ensures Ordered.Keys(r.frames) ==
              Ordered.Keys(reg.frames) - (if w in reg.widgets then {KeyOf(reg.widgets[w])} else {})
    ensures forall k :: k in Ordered.Keys(r.frames) ==> Ordered.Get(r.frames, k) == Ordered.Get(reg.frames, k)
    ensures Inv(reg) ==> Inv(r) && !Links(r.frames, w)
  {
    if w in reg.widgets then
      var r := reg.(frames := Ordered.Remove(reg.frames, KeyOf(reg.widgets[w])), widgets := reg.widgets - {w});
      assert Inv(reg) ==> Inv(r) && !Links(r.frames, w) by {
        if Inv(reg) {
          RemoveKeepsEntries(reg.frames, KeyOf(reg.widgets[w]));
        }
      }
      r
    else
      reg
  }

  /** The synchronous part of `mapWidget`: bind the widget (CSS not yet injected)
      and record the frame as showing its source and belonging to it. */
  function MapWidget(reg: Registry, w: WidgetId, tab: int, frame: int, src: string): (r: Registry)
    ensures w in r.widgets && r.widgets[w] == Binding(tab, frame, src, false)
    ensures forall v :: v != w ==> (v in r.widgets <==> v in reg.widgets)
    ensures forall v :: v != w && v in reg.widgets ==> r.widgets[v] == reg.widgets[v]
    ensures Ordered.Get(r.frames, FrameKey(tab, frame)) == Some(FrameInfo(src, Some(w)))
    ensures forall k :: k != FrameKey(tab, frame) ==> Ordered.Get(r.frames, k) == Ordered.Get(reg.frames, k)
    ensures Ordered.Keys(r.frames) == Ordered.Keys(reg.frames) + {FrameKey(tab, frame)}
    ensures r.pending == reg.pending && r.activeTabs == reg.activeTabs
    // binding a widget that no frame names keeps the invariant
    ensures Inv(reg) && !Links(reg.frames, w) ==> Inv(r)
  {
    var r := reg.(widgets := reg.widgets[w := Binding(tab, frame, src, false)],
                  frames := Ordered.Put(reg.frames, FrameKey(tab, frame), FrameInfo(src, Some(w))));
    assert Inv(reg) && !Links(reg.frames, w) ==> Inv(r) by {
      if Inv(reg) && !Links(reg.frames, w) {
        MapWidgetKeepsMirror(reg, r, w, FrameKey(tab, frame), src);
      }
    }
    r
  }

  lemma MapWidgetKeepsMirror(reg: Registry, r: Registry, w: WidgetId, key: FrameKey, src: string)
    requires Inv(reg) && !Links(reg.frames, w)
    requires r.widgets == reg.widgets[w := Binding(key.tab, key.frame, src, false)]
    requires r.frames == Ordered.Put(reg.frames, key, FrameInfo(src, Some(w)))
    ensures Mirrored(r)
  {
    forall i | 0 <= i < |r.frames| && r.frames[i].1.widget.Some?
      ensures r.frames[i].1.widget.value in r.widgets
      ensures KeyOf(r.widgets[r.frames[i].1.widget.value]) == r.frames[i].0
    {
      var e := r.frames[i];
      Ordered.GetAt(r.frames, i);
      if e.0 != key {
        assert Ordered.Get(reg.frames, e.0) == Some(e.1);
        var j :| 0 <= j < |reg.frames| && reg.frames[j] == (e.0, e.1);
        assert reg.frames[j].1.widget != Some(w);
      }
    }
  }

  /** `pendingCssInjections[w]` is truthy. */
  predicate HasQueued(reg: Registry, w: WidgetId) {
    w in reg.pending && Truthy(reg.pending[w])
  }

  /** The storage read succeeds, the document holds the widget, and its `customCss` is truthy. */
  predicate HasSaved(world: World, w: WidgetId, io: bool) {
    && io && world.store.Some?
    && Storage.FindWidget(world.store.value.workspaces, w).Some?
    && Truthy(Storage.FindWidget(world.store.value.workspaces, w).value.customCss)
  }

  /** The CSS a frame that just became a widget's gets (the follow-up of `mapWidget`,
      and `onCompleted`): CSS queued for the widget first, else the CSS saved with it. */
  function CssToApply(world: World, w: WidgetId, tab: int, frame: int, io: bool): (job: Option<Job>)
    ensures job.Some? ==> job.value.widget == w && job.value.tab == tab && job.value.frame == frame
    ensures job.Some? ==> Truthy(job.value.css)
    // an injection is started exactly when there is queued or saved CSS
    ensures job.None? <==> !HasQueued(world.reg, w) && !HasSaved(world, w, io)
    ensures !HasQueued(world.reg, w) && HasSaved(world, w, io) ==>
              job == Some(Job(w, tab, frame, Storage.FindWidget(world.store.value.workspaces, w).value.customCss, false))
    // queued CSS wins, and its entry is cleared once the injection returns
    ensures w in world.reg.pending && Truthy(world.reg.pending[w]) ==>
              job == Some(Job(w, tab, frame, world.reg.pending[w], true))
    ensures job.Some? && job.value.clearAfter ==> w in world.reg.pending && world.reg.pending[w] == job.value.css
    // otherwise only saved CSS, read from a reachable document, is applied
    ensures job.Some? && !job.value.clearAfter ==>
              && io && world.store.Some?
              && Storage.FindWidget(world.store.value.workspaces, w).Some?
              && Storage.FindWidget(world.store.value.workspaces, w).value.customCss == job.value.css
  {
    if w in world.reg.pending && Truthy(world.reg.pending[w]) then
      Some(Job(w, tab, frame, world.reg.pending[w], true))
    else if io && world.store.Some? then
      match Storage.FindWidget(world.store.value.workspaces, w)
      case Some(saved) =>
        if Truthy(saved.customCss) then Some(Job(w, tab, frame, saved.customCss, false)) else None
      case None => None
    else None
  }

  // ---------------------------------------------------------------------
  // PREPARE_WIDGET_TRACKING
  // ---------------------------------------------------------------------

  /** A frame of the tab currently showing `url`. */
  predicate FrameMatches(e: (FrameKey, FrameInfo), tab: int, url: string) {
    e.0.tab == tab && e.1.url == url
  }

  /** The first frame entry, in insertion order from `from`, in the tab showing `url`. */
  function FirstMatch(frames: Frames, tab: int, url: string, from: nat): (r: Option<nat>)
    requires from <= |frames|
    ensures r.Some? ==> from <= r.value < |frames| && FrameMatches(frames[r.value], tab, url)
    ensures r.Some? ==> forall j :: from <= j < r.value ==> !FrameMatches(frames[j], tab, url)
    ensures r.None? <==> forall j :: from <= j < |frames| ==> !FrameMatches(frames[j], tab, url)
    decreases |frames| - from
  {
    if from == |frames| then None
    else if FrameMatches(frames[from], tab, url) then Some(from)
    else FirstMatch(frames, tab, url, from + 1)
  }

  /** The sender carries a usable tab id (`sender.tab?.id` is truthy). */
  predicate HasTab(senderTab: Option<int>) {
    senderTab.Some? && senderTab.value != 0
  }

  /**
   `PREPARE_WIDGET_TRACKING`: drop the widget's old binding, then bind it to the
   first frame of the sender's tab that shows its normalised source, or leave
   it unbound until a navigation brings such a frame.
   */
  function Prepare(world: World, senderTab: Option<int>, widgetId: Option<string>, widgetSrc: Option<string>, io: bool): (h: Handled)
    ensures h.reply.Some?
    ensures h.reply.value.success <==> HasTab(senderTab) && Present(widgetId) && Present(widgetSrc)
    ensures !HasTab(senderTab) ==> h.world == world && h.reply == Some(Failed("Missing tabId"))
    ensures HasTab(senderTab) ==> h.world.reg.activeTabs == world.reg.activeTabs + {senderTab.value}
    ensures HasTab(senderTab) && !(Present(widgetId) && Present(widgetSrc)) ==>
              h.reply == Some(Failed("Missing payload data")) && h.job.None? &&
              h.world.reg.widgets == world.reg.widgets && h.world.reg.frames == world.reg.frames
    ensures h.world.store == world.store && h.world.reg.pending == world.reg.pending
    // on success the widget is bound exactly when a frame of the tab shows its source,
    // and then to the first such frame, with its CSS not yet injected
    ensures h.reply.value.success ==>
              var w := widgetId.value;
              var url := Url.Normalize(widgetSrc.value);
              var before := Unmap(world.reg, w).frames;
              && (w in h.world.reg.widgets <==> exists i :: 0 <= i < |before| && FrameMatches(before[i], senderTab.value, url))
              && (w in h.world.reg.widgets ==>
                    exists i :: 0 <= i < |before| && FrameMatches(before[i], senderTab.value, url)
                      && (forall j :: 0 <= j < i ==> !FrameMatches(before[j], senderTab.value, url))
                      && h.world.reg.widgets[w] == Binding(senderTab.value, before[i].0.frame, url, false)
                      && Ordered.Get(h.world.reg.frames, before[i].0) == Some(FrameInfo(url, Some(w))))
    // and nothing else moves: other bindings stay, the frame table loses the widget's old key,
    // and only the newly bound frame's entry is rewritten
    ensures h.reply.value.success ==>
              var w := widgetId.value;
              && OthersBoundAsBefore(world.reg.widgets, h.world.reg.widgets, w)
              && (w !in h.world.reg.widgets ==> h.world.reg.frames == Unmap(world.reg, w).frames)
              && Ordered.Keys(h.world.reg.frames) == Ordered.Keys(Unmap(world.reg, w).frames)
              && forall k :: k in Ordered.Keys(h.world.reg.frames) && (w in h.world.reg.widgets ==> k != KeyOf(h.world.reg.widgets[w])) ==>
                   Ordered.Get(h.world.reg.frames, k) == Ordered.Get(world.reg.frames, k)
    ensures h.job.Some? ==> h.reply.value.success && h.job.value.widget == widgetId.value && h.job.value.widget in h.world.reg.widgets
    ensures Inv(world.reg) ==> Inv(h.world.reg)
  {
    if !HasTab(senderTab) then
      Handled(world, Some(Failed("Missing tabId")), None)
    else
      var tab := senderTab.value;
      var reg0 := world.reg.(activeTabs := world.reg.activeTabs + {tab});
      if !Present(widgetId) || !Present(widgetSrc) then
        Handled(world.(reg := reg0), Some(Failed("Missing payload data")), None)
      else
        Bind(world, tab, widgetId.value, Url.Normalize(widgetSrc.value), io)
  }

  /** The successful part of `PREPARE_WIDGET_TRACKING`: record the tab as active, unbind, and bind to the first match. */
  function Bind(world: World, tab: int, w: WidgetId, src: string, io: bool): (h: Handled)
    ensures h.reply == Some(Ok())
    ensures h.world.store == world.store && h.world.reg.pending == world.reg.pending
    ensures h.world.reg.activeTabs == world.reg.activeTabs + {tab}
    ensures var before := Unmap(world.reg, w).frames;
            && (w in h.world.reg.widgets <==> exists i :: 0 <= i < |before| && FrameMatches(before[i], tab, src))
            && (w in h.world.reg.widgets ==>
                  exists i :: 0 <= i < |before| && FrameMatches(before[i], tab, src)
                    && (forall j :: 0 <= j < i ==> !FrameMatches(before[j], tab, src))
                    && h.world.reg.widgets[w] == Binding(tab, before[i].0.frame, src, false)
                    && Ordered.Get(h.world.reg.frames, before[i].0) == Some(FrameInfo(src, Some(w))))
    // no other binding changes; the frame table loses `w`'s old key and only the matched entry is rewritten
    ensures OthersBoundAsBefore(world.reg.widgets, h.world.reg.widgets, w)
    ensures w !in h.world.reg.widgets ==> h.world.reg.frames == Unmap(world.reg, w).frames
    ensures Ordered.Keys(h.world.reg.frames) == Ordered.Keys(Unmap(world.reg, w).frames)
    ensures forall k :: k in Ordered.Keys(h.world.reg.frames) && (w in h.world.reg.widgets ==> k != KeyOf(h.world.reg.widgets[w])) ==>
              Ordered.Get(h.world.reg.frames, k) == Ordered.Get(world.reg.frames, k)
    ensures h.job.Some? ==> h.job.value.widget == w && w in h.world.reg.widgets
    ensures Inv(world.reg) ==> Inv(h.world.reg)
  {
    var reg0 := world.reg.(activeTabs := world.reg.activeTabs + {tab});
    var reg1 := Unmap(reg0, w);
    assert reg1.frames == Unmap(world.reg, w).frames;
    match FirstMatch(reg1.frames, tab, src, 0)
    case None => Handled(world.(reg := reg1), Some(Ok()), None)
    case Some(i) =>
      var h := BindAt(world, tab, w, src, io, i);
      assert w in h.world.reg.widgets && FrameMatches(reg1.frames[i], tab, src);
      h
  }

  /** Re-binding `w` to a frame left after unbinding it touches no other binding and no other frame entry. */
  lemma RebindKeepsOthers(reg: Registry, w: WidgetId, tab: int, key: FrameKey, src: string)
    requires FrameKey(tab, key.frame) == key && key in Ordered.Keys(Unmap(reg, w).frames)
    ensures var r := MapWidget(Unmap(reg, w), w, tab, key.frame, src);
            && OthersBoundAsBefore(reg.widgets, r.widgets, w)
            && Ordered.Keys(r.frames) == Ordered.Keys(Unmap(reg, w).frames)
            && forall k :: k in Ordered.Keys(r.frames) && k != key ==> Ordered.Get(r.frames, k) == Ordered.Get(reg.frames, k)
  {
  }

  /** Binding to the `i`-th entry left after unbinding, a frame of the tab showing the source. */
  function BindAt(world: World, tab: int, w: WidgetId, src: string, io: bool, i: nat): (h: Handled)
    requires i < |Unmap(world.reg, w).frames| && FrameMatches(Unmap(world.reg, w).frames[i], tab, src)
    ensures h.reply == Some(Ok())
    ensures h.world.store == world.store && h.world.reg.pending == world.reg.pending
    ensures h.world.reg.activeTabs == world.reg.activeTabs + {tab}
    ensures var key := Unmap(world.reg, w).frames[i].0;
            && w in h.world.reg.widgets
            && h.world.reg.widgets[w] == Binding(tab, key.frame, src, false)
            && Ordered.Get(h.world.reg.frames, key) == Some(FrameInfo(src, Some(w)))
    // no other binding changes; the frame table loses `w`'s old key and only `key` is rewritten
    ensures OthersBoundAsBefore(world.reg.widgets, h.world.reg.widgets, w)
    ensures var key := Unmap(world.reg, w).frames[i].0;
            && Ordered.Keys(h.world.reg.frames) == Ordered.Keys(Unmap(world.reg, w).frames)
            && forall k :: k in Ordered.Keys(h.world.reg.frames) && k != key ==>
                 Ordered.Get(h.world.reg.frames, k) == Ordered.Get(world.reg.frames, k)
    ensures h.job.Some? ==> h.job.value.widget == w
    ensures Inv(world.reg) ==> Inv(h.world.reg)
  {
    var reg0 := world.reg.(activeTabs := world.reg.activeTabs + {tab});
    var reg1 := Unmap(reg0, w);
    assert reg1.frames == Unmap(world.reg, w).frames;
    var key := reg1.frames[i].0;
    assert FrameKey(tab, key.frame) == key;
    assert key in Ordered.Keys(reg1.frames);
    RebindKeepsOthers(reg0, w, tab, key, src);
    var reg2 := MapWidget(reg1, w, tab, key.frame, src);
    assert Inv(world.reg) ==> Inv(reg2) by {
      if Inv(world.reg) { assert Inv(reg0); }
    }
    var world2 := world.(reg := reg2);
    Handled(world2, Some(Ok()), CssToApply(world2, w, tab, key.frame, io))
  }

  // ---------------------------------------------------------------------
  // INJECT_CSS
  // ---------------------------------------------------------------------

  /** The `customCss` written to storage: `css || ""`. */
  function CssOrEmpty(css: Option<string>): string {
    if css.Some? then css.value else ""
  }

  /** Writing the widget's CSS to the document when the storage round trip succeeds. */
  function SaveCss(store: Option<AppState>, w: WidgetId, css: Option<string>, io: bool): (r: Option<AppState>)
    ensures r.Some? <==> store.Some?
    ensures !io ==> r == store
    // reading the widget back yields the CSS just written
    ensures io && store.Some? && Storage.FindWidget(store.value.workspaces, w).Some? ==>
              Storage.FindWidget(r.value.workspaces, w).Some? &&
              Storage.FindWidget(r.value.workspaces, w).value.customCss == CssOrEmpty(css)
    // other widgets read back unchanged
    ensures store.Some? ==> forall v :: v != w ==>
              Storage.FindWidget(r.value.workspaces, v) == Storage.FindWidget(store.value.workspaces, v)
  {
    if io && store.Some? then
      var p := Storage.SetCss(CssOrEmpty(css));
      Storage.FindAfterPatch(store.value.workspaces, w, p);
      assert forall v :: v != w ==>
        Storage.FindWidget(Storage.PatchWorkspaces(store.value.workspaces, w, p), v) == Storage.FindWidget(store.value.workspaces, v) by {
        forall v | v != w
          ensures Storage.FindWidget(Storage.PatchWorkspaces(store.value.workspaces, w, p), v) == Storage.FindWidget(store.value.workspaces, v)
        {
          Storage.FindOtherAfterPatch(store.value.workspaces, w, v, p);
        }
      }
      Some(Storage.PatchDoc(store.value, w, p))
    else store
  }

  /**
   `INJECT_CSS`: persist the CSS, then inject it into the bound frame, or queue
   it when there is no binding or the injection is rejected.
   */
  function InjectCssRequest(world: World, widgetId: Option<string>, css: Option<string>, io: bool, attempt: Injection.Attempt): (h: Handled)
    ensures h.job.None?
    ensures !Present(widgetId) ==> h.world == world && h.reply == Some(Failed("Missing widgetId"))
    ensures Present(widgetId) ==> h.world.store == SaveCss(world.store, widgetId.value, css, io)
    ensures h.world.reg.frames == world.reg.frames && h.world.reg.activeTabs == world.reg.activeTabs
    ensures SameBindings(world.reg.widgets, h.world.reg.widgets)
    // other widgets' bindings stay as they were, and the widget's own differs at most in `cssInjected`
    ensures Present(widgetId) ==>
              && OthersBoundAsBefore(world.reg.widgets, h.world.reg.widgets, widgetId.value)
              && (widgetId.value in world.reg.widgets ==>
                    h.world.reg.widgets[widgetId.value] ==
                      world.reg.widgets[widgetId.value].(cssInjected := h.world.reg.widgets[widgetId.value].cssInjected))
    ensures Present(widgetId) ==> forall v :: v != widgetId.value ==>
              (v in h.world.reg.pending <==> v in world.reg.pending) &&
              (v in world.reg.pending ==> h.world.reg.pending[v] == world.reg.pending[v])
    // an unbound widget's CSS waits in the queue; blank CSS empties the queue slot
    ensures Present(widgetId) && widgetId.value !in world.reg.widgets ==>
              && h.reply == Some(OkWith(Queued))
              && (HasCss(css) ==> widgetId.value in h.world.reg.pending && h.world.reg.pending[widgetId.value] == css.value)
              && (!HasCss(css) ==> widgetId.value !in h.world.reg.pending)
    // blank CSS for a bound widget is saved but not injected
    ensures Present(widgetId) && widgetId.value in world.reg.widgets && !HasCss(css) ==>
              h.world.reg == world.reg && h.reply == Some(OkWith(EmptyCss))
    // for a bound widget the answer follows the injection's promise
    ensures Present(widgetId) && widgetId.value in world.reg.widgets && HasCss(css) ==>
              var w := widgetId.value;
              && (h.reply == Some(Ok()) <==> Injection.Outcome(attempt).Resolved?)
              && (h.reply.None? <==> Injection.Outcome(attempt).NeverSettles?)
              && (h.world.reg.widgets[w].cssInjected <==> Injection.Outcome(attempt).Resolved? || world.reg.widgets[w].cssInjected)
              && (Injection.Outcome(attempt).Rejected? ==>
                    h.reply == Some(OkWith(Queued)) && w in h.world.reg.pending && h.world.reg.pending[w] == css.value)
  {
    if !Present(widgetId) then
      Handled(world, Some(Failed("Missing widgetId")), None)
    else
      var w := widgetId.value;
      var reg := world.reg;
      var store := SaveCss(world.store, w, css, io);
      if w in reg.widgets then
        if HasCss(css) then
          match Injection.Outcome(attempt)
          case Resolved(_) =>
            Handled(World(reg.(widgets := reg.widgets[w := reg.widgets[w].(cssInjected := true)]), store), Some(Ok()), None)
          case Rejected =>
            Handled(World(reg.(pending := reg.pending[w := css.value]), store), Some(OkWith(Queued)), None)
          case NeverSettles =>
            Handled(World(reg, store), None, None)
        else
          Handled(World(reg, store), Some(OkWith(EmptyCss)), None)
      else if HasCss(css) then
        Handled(World(reg.(pending := reg.pending[w := css.value]), store), Some(OkWith(Queued)), None)
      else
        Handled(World(reg.(pending := reg.pending - {w}), store), Some(OkWith(Queued)), None)
  }

  // ---------------------------------------------------------------------
  // UNREGISTER_WIDGET
  // ---------------------------------------------------------------------

  /** `UNREGISTER_WIDGET`: forget the binding, its frame entry and any queued CSS. */
  function Unregister(world: World, widgetId: Option<string>): (h: Handled)
    ensures h.job.None? && h.world.store == world.store
    ensures !Present(widgetId) ==> h.world == world && h.reply == Some(Failed("Missing widgetId"))
    ensures Present(widgetId) ==>
              && h.reply == Some(Ok())
              && h.world.reg.widgets == world.reg.widgets - {widgetId.value}
              && h.world.reg.pending == world.reg.pending - {widgetId.value}
              && h.world.reg.activeTabs == world.reg.activeTabs
    // only the frame entry at the widget's bound key goes
    ensures Present(widgetId) ==>
              var w := widgetId.value;
              && Ordered.Keys(h.world.reg.frames) ==
                   Ordered.Keys(world.reg.frames) - (if w in world.reg.widgets then {KeyOf(world.reg.widgets[w])} else {})
              && forall k :: k in Ordered.Keys(h.world.reg.frames) ==> Ordered.Get(h.world.reg.frames, k) == Ordered.Get(world.reg.frames, k)
    ensures Present(widgetId) && Inv(world.reg) ==> Inv(h.world.reg) && !Links(h.world.reg.frames, widgetId.value)
  {
    if !Present(widgetId) then
      Handled(world, Some(Failed("Missing widgetId")), None)
    else
      var reg := Unmap(world.reg, widgetId.value);
      Handled(world.(reg := reg.(pending := reg.pending - {widgetId.value})), Some(Ok()), None)
  }

  /** Unregistering twice is the same as unregistering once. */
  lemma UnregisterIdempotent(world: World, widgetId: Option<string>)
    ensures Unregister(Unregister(world, widgetId).world, widgetId).world == Unregister(world, widgetId).world
  {
  }

  /** The `runtime.onMessage` listener. Unknown message types get no response. */
  function OnMessage(world: World, req: Request, senderTab: Option<int>, io: bool, attempt: Injection.Attempt): (h: Handled)
    ensures req.OtherMessage? ==> h == Handled(world, None, None)
    ensures h.job.Some? ==> req.PrepareWidgetTracking? && h.job.value.widget in h.world.reg.widgets
    ensures Inv(world.reg) ==> Inv(h.world.reg)
  {
    match req
    case PrepareWidgetTracking(w, src) => Prepare(world, senderTab, w, src, io)
    case InjectCss(w, css) => InjectCssRequest(world, w, css, io, attempt)
    case UnregisterWidget(w) => Unregister(world, w)
    case OtherMessage => Handled(world, None, None)
  }

  // ---------------------------------------------------------------------
  // webNavigation.onBeforeNavigate
  // ---------------------------------------------------------------------

  /** Navigations the listener ignores: the top frame, `about:blank` and extension pages. */
  predicate IgnoredNavigation(frame: int, url: string) {
    frame == 0 || url == "about:blank" || StartsWith(url, "chrome-extension:")
  }

  /** `updateWidgetUrlInStorage`: the raw URL is written only when the widget is in the document. */
  function StoreRawUrl(store: Option<AppState>, w: WidgetId, url: string, io: bool): (r: Option<AppState>)
    ensures r.Some? <==> store.Some?
    ensures store.Some? && Storage.FindWidget(store.value.workspaces, w).None? ==> r == store
    ensures io && store.Some? && Storage.FindWidget(store.value.workspaces, w).Some? ==>
              Storage.FindWidget(r.value.workspaces, w) == Some(Storage.FindWidget(store.value.workspaces, w).value.(url := url))
  {
    if io && store.Some? && Storage.FindWidget(store.value.workspaces, w).Some? then
      Storage.FindAfterPatch(store.value.workspaces, w, Storage.SetUrl(url));
      Some(Storage.PatchDoc(store.value, w, Storage.SetUrl(url)))
    else store
  }

  /** The two storage writes of a widget frame's navigation: the raw URL, then the normalised one. */
  function StoreNavigatedUrl(store: Option<AppState>, w: WidgetId, url: string, io1: bool, io2: bool): (r: Option<AppState>)
    ensures r.Some? <==> store.Some?
  {
    var store1 := StoreRawUrl(store, w, url, io1);
    if io2 && store1.Some? then Some(Storage.PatchDoc(store1.value, w, Storage.SetUrl(Url.Normalize(url)))) else store1
  }

  /**
   Reading any widget back after the two writes: it is found exactly when it was,
   at most its URL changed, and the navigated widget ends on the normalised URL
   once the second write succeeds.
   */
  lemma StoredNavigationReadBack(store: Option<AppState>, w: WidgetId, url: string, io1: bool, io2: bool, v: WidgetId)
    requires store.Some?
    ensures var r := StoreNavigatedUrl(store, w, url, io1, io2);
            var before := Storage.FindWidget(store.value.workspaces, v);
            var after := Storage.FindWidget(r.value.workspaces, v);
            && (before.Some? <==> after.Some?)
            && (before.Some? ==> after.value == before.value.(url := after.value.url))
            && (io2 && v == w && before.Some? ==> after.value.url == Url.Normalize(url))
  {
    var store1 := StoreRawUrl(store, w, url, io1);
    if v == w {
      if io2 {
        Storage.FindAfterPatch(store1.value.workspaces, w, Storage.SetUrl(Url.Normalize(url)));
      }
    } else {
      if io1 && Storage.FindWidget(store.value.workspaces, w).Some? {
        Storage.FindOtherAfterPatch(store.value.workspaces, w, v, Storage.SetUrl(url));
      }
      if io2 {
        Storage.FindOtherAfterPatch(store1.value.workspaces, w, v, Storage.SetUrl(Url.Normalize(url)));
      }
    }
  }

  /**
   `webNavigation.onBeforeNavigate`: remember the frame's normalised URL. For a
   frame belonging to a widget the URL is also written to storage, first raw
   (`io1`) and then, unconditionally on the widget being found, normalised
   (`io2`), so the normalised URL is what persists.
   */
  function OnBeforeNavigate(world: World, tab: int, frame: int, url: string, io1: bool, io2: bool): (r: World)
    ensures IgnoredNavigation(frame, url) ==> r == world
    ensures r.reg.widgets == world.reg.widgets && r.reg.pending == world.reg.pending
    ensures r.reg.activeTabs == world.reg.activeTabs
    // the frame's entry now holds the normalised URL and keeps its widget; no other entry changes
    ensures !IgnoredNavigation(frame, url) ==>
              var key := FrameKey(tab, frame);
              && Ordered.Get(r.reg.frames, key).Some?
              && Ordered.Get(r.reg.frames, key).value.url == Url.Normalize(url)
              && Ordered.Get(r.reg.frames, key).value.widget ==
                   (if key in Ordered.Keys(world.reg.frames) then Ordered.Get(world.reg.frames, key).value.widget else None)
              && (forall k :: k != key ==> Ordered.Get(r.reg.frames, k) == Ordered.Get(world.reg.frames, k))
              && Ordered.Keys(r.reg.frames) == Ordered.Keys(world.reg.frames) + {key}
    // storage changes only for a frame that belongs to a widget
    ensures (forall k :: Ordered.Get(world.reg.frames, FrameKey(tab, frame)) == Some(k) ==> !Present(k.widget)) ==> r.store == world.store
    ensures Inv(world.reg) ==> Inv(r.reg)
  {
    if IgnoredNavigation(frame, url) then world
    else
      var normalized := Url.Normalize(url);
      var key := FrameKey(tab, frame);
      var frames := world.reg.frames;
      match Ordered.Get(frames, key)
      case None =>
        var reg := world.reg.(frames := Ordered.Put(frames, key, FrameInfo(normalized, None)));
        assert Inv(world.reg) ==> Inv(reg) by {
          if Inv(world.reg) { NavigateKeepsMirror(world.reg, reg, key, FrameInfo(normalized, None)); }
        }
        world.(reg := reg)
      case Some(info) =>
        var reg := world.reg.(frames := Ordered.Put(frames, key, info.(url := normalized)));
        assert Inv(world.reg) ==> Inv(reg) by {
          if Inv(world.reg) { NavigateKeepsMirror(world.reg, reg, key, info.(url := normalized)); }
        }
        if Present(info.widget) then
          World(reg, StoreNavigatedUrl(world.store, info.widget.value, url, io1, io2))
        else
          World(reg, world.store)
  }

  /** Rewriting an entry so that it names no widget, or the widget it already named, keeps the mirror. */
  lemma NavigateKeepsMirror(reg: Registry, r: Registry, key: FrameKey, info: FrameInfo)
    requires Inv(reg)
    requires info.widget.Some? ==> Ordered.Get(reg.frames, key).Some? && Ordered.Get(reg.frames, key).value.widget == info.widget
    requires r == reg.(frames := Ordered.Put(reg.frames, key, info))
    ensures Inv(r)
  {
    forall i | 0 <= i < |r.frames| && r.frames[i].1.widget.Some?
      ensures r.frames[i].1.widget.value in r.widgets
      ensures KeyOf(r.widgets[r.frames[i].1.widget.value]) == r.frames[i].0
    {
      var e := r.frames[i];
      Ordered.GetAt(r.frames, i);
      var prev := Ordered.Get(reg.frames, e.0);
      assert prev.Some?;
      var j :| 0 <= j < |reg.frames| && reg.frames[j] == (e.0, prev.value);
    }
  }

  /** What storage holds for a navigated widget frame: its URL is the normalised one. */
  lemma NavigationPersistsNormalizedUrl(world: World, tab: int, frame: int, url: string, io1: bool)
    requires !IgnoredNavigation(frame, url)
    requires Ordered.Get(world.reg.frames, FrameKey(tab, frame)).Some?
    requires Present(Ordered.Get(world.reg.frames, FrameKey(tab, frame)).value.widget)
    requires world.store.Some?
    ensures var w := Ordered.Get(world.reg.frames, FrameKey(tab, frame)).value.widget.value;
            var r := OnBeforeNavigate(world, tab, frame, url, io1, true);
            var found := Storage.FindWidget(world.store.value.workspaces, w);
            && r.store.Some?
            && (found.Some? ==> Storage.FindWidget(r.store.value.workspaces, w) == Some(found.value.(url := Url.Normalize(url))))
            && (found.None? ==> Storage.FindWidget(r.store.value.workspaces, w).None?)
  {
    var w := Ordered.Get(world.reg.frames, FrameKey(tab, frame)).value.widget.value;
    StoredNavigationReadBack(world.store, w, url, io1, true, w);
  }

  // ---------------------------------------------------------------------
  // tabs.onRemoved
  // ---------------------------------------------------------------------

  /** One step of the frame-table loop of `tabs.onRemoved`. */
  function PurgeEntry(reg: Registry, e: (FrameKey, FrameInfo), tab: int): (r: Registry)
    ensures r.pending == reg.pending && r.activeTabs == reg.activeTabs
  {
    if e.0.tab == tab then
      var u := if Present(e.1.widget) then Unmap(reg, e.1.widget.value) else reg;
      u.(frames := Ordered.Remove(u.frames, e.0))
    else reg
  }

  /** The frame-table loop of `tabs.onRemoved`, over a snapshot of the entries:
      every entry of the tab goes, and so does the binding of the widget it names. */
  function PurgeTab(reg: Registry, snapshot: Frames, tab: int): (r: Registry)
    ensures r.pending == reg.pending && r.activeTabs == reg.activeTabs
    ensures Ordered.Keys(r.frames) <= Ordered.Keys(reg.frames)
    ensures forall k :: k in Ordered.Keys(r.frames) ==> Ordered.Get(r.frames, k) == Ordered.Get(reg.frames, k)
    ensures forall i :: 0 <= i < |snapshot| && snapshot[i].0.tab == tab ==> snapshot[i].0 !in Ordered.Keys(r.frames)
    ensures forall w :: w in r.widgets ==> w in reg.widgets && r.widgets[w] == reg.widgets[w]
    ensures forall i :: 0 <= i < |snapshot| && snapshot[i].0.tab == tab && Present(snapshot[i].1.widget) ==>
              snapshot[i].1.widget.value !in r.widgets
    decreases |snapshot|
  {
    if snapshot == [] then reg
    else
      var reg1 := PurgeEntry(reg, snapshot[0], tab);
      var r := PurgeTab(reg1, snapshot[1..], tab);
      assert forall i :: 1 <= i < |snapshot| ==> snapshot[i] == snapshot[1..][i - 1];
      r
  }

  /** The loop keeps the invariant. */
  lemma {:induction false} PurgeTabKeepsInv(reg: Registry, snapshot: Frames, tab: int)
    requires Inv(reg)
    ensures Inv(PurgeTab(reg, snapshot, tab))
    decreases |snapshot|
  {
    if snapshot != [] {
      var e := snapshot[0];
      if e.0.tab == tab {
        var u := if Present(e.1.widget) then Unmap(reg, e.1.widget.value) else reg;
        RemoveKeepsEntries(u.frames, e.0);
        assert Inv(PurgeEntry(reg, e, tab));
      }
      PurgeTabKeepsInv(PurgeEntry(reg, e, tab), snapshot[1..], tab);
    }
  }

  /** Every widget the snapshot names for the tab is, if still bound, bound in that tab. */
  predicate NamedInTab(reg: Registry, snapshot: Frames, tab: int) {
    forall i ::
      (0 <= i < |snapshot| && snapshot[i].0.tab == tab && Present(snapshot[i].1.widget)
       && snapshot[i].1.widget.value in reg.widgets) ==> reg.widgets[snapshot[i].1.widget.value].tab == tab
  }

  /** The loop leaves every other tab's frames and widgets alone. */
  lemma {:induction false} PurgeTabKeepsOtherTabs(reg: Registry, snapshot: Frames, tab: int)
    requires NamedInTab(reg, snapshot, tab)
    ensures var r := PurgeTab(reg, snapshot, tab);
            && (forall k :: k in Ordered.Keys(reg.frames) && k.tab != tab ==> k in Ordered.Keys(r.frames))
            && (forall w :: w in reg.widgets && reg.widgets[w].tab != tab ==> w in r.widgets)
    decreases |snapshot|
  {
    if snapshot != [] {
      var reg1 := PurgeEntry(reg, snapshot[0], tab);
      assert NamedInTab(reg1, snapshot[1..], tab) by {
        forall i | 0 <= i < |snapshot[1..]| && snapshot[1..][i].0.tab == tab && Present(snapshot[1..][i].1.widget)
            && snapshot[1..][i].1.widget.value in reg1.widgets
          ensures reg1.widgets[snapshot[1..][i].1.widget.value].tab == tab
        {
          assert snapshot[1..][i] == snapshot[i + 1];
        }
      }
      PurgeTabKeepsOtherTabs(reg1, snapshot[1..], tab);
    }
  }

  /**
   `tabs.onRemoved` as written: for a tab that asked for tracking, forget the
   tab, purge its frames, then drop the queued CSS of widgets still bound to it.
   */
  function OnTabRemoved(world: World, tab: int): (r: World)
    ensures tab !in world.reg.activeTabs ==> r == world
    ensures r.store == world.store
    ensures r.reg.activeTabs == world.reg.activeTabs - {tab}
    ensures tab in world.reg.activeTabs ==>
              forall k :: k in Ordered.Keys(r.reg.frames) ==> k.tab != tab && Ordered.Get(r.reg.frames, k) == Ordered.Get(world.reg.frames, k)
    ensures forall w :: w in r.reg.widgets ==> w in world.reg.widgets && r.reg.widgets[w] == world.reg.widgets[w]
    ensures forall w :: w in r.reg.pending ==> w in world.reg.pending && r.reg.pending[w] == world.reg.pending[w]
  {
    if tab !in world.reg.activeTabs then world
    else
      var reg0 := world.reg.(activeTabs := world.reg.activeTabs - {tab});
      var reg1 := PurgeTab(reg0, reg0.frames, tab);
      assert forall k :: k in Ordered.Keys(reg1.frames) ==> k.tab != tab by {
        forall k | k in Ordered.Keys(reg1.frames) ensures k.tab != tab {
          var i :| 0 <= i < |reg0.frames| && reg0.frames[i].0 == k;
        }
      }
      world.(reg := reg1.(pending := map w | w in reg1.pending && !(w in reg1.widgets && reg1.widgets[w].tab == tab) :: reg1.pending[w]))
  }

  /** Under the invariant, tab removal keeps it, and leaves every other tab's frames and widgets in place. */
  lemma TabRemovalKeepsOthers(world: World, tab: int)
    requires Inv(world.reg)
    ensures var r := OnTabRemoved(world, tab);
            && Inv(r.reg)
            && (forall k :: k in Ordered.Keys(world.reg.frames) && k.tab != tab ==> k in Ordered.Keys(r.reg.frames))
            && (forall w :: w in world.reg.widgets && world.reg.widgets[w].tab != tab ==> w in r.reg.widgets)
  {
    if tab in world.reg.activeTabs {
      var reg0 := world.reg.(activeTabs := world.reg.activeTabs - {tab});
      PurgeTabKeepsInv(reg0, reg0.frames, tab);
      PurgeTabKeepsOtherTabs(reg0, reg0.frames, tab);
    }
  }

  // ---------------------------------------------------------------------
  // webNavigation.onCompleted and the delayed injection
  // ---------------------------------------------------------------------

  /** `webNavigation.onCompleted`: a finished sub-frame that belongs to a widget gets its CSS. */
  function OnCompleted(world: World, tab: int, frame: int, io: bool): (job: Option<Job>)
    ensures frame == 0 ==> job.None?
    ensures job.Some? ==>
              && job.value.tab == tab && job.value.frame == frame && Truthy(job.value.css)
              && Ordered.Get(world.reg.frames, FrameKey(tab, frame)).Some?
              && Ordered.Get(world.reg.frames, FrameKey(tab, frame)).value.widget == Some(job.value.widget)
    // queued CSS takes precedence over the saved CSS
    ensures frame != 0 && Ordered.Get(world.reg.frames, FrameKey(tab, frame)).Some? ==>
              var wid := Ordered.Get(world.reg.frames, FrameKey(tab, frame)).value.widget;
              Present(wid) && wid.value in world.reg.pending && Truthy(world.reg.pending[wid.value]) ==>
                job == Some(Job(wid.value, tab, frame, world.reg.pending[wid.value], true))
    // without queued CSS, the CSS saved with the widget is applied
    ensures frame != 0 && Ordered.Get(world.reg.frames, FrameKey(tab, frame)).Some? ==>
              var wid := Ordered.Get(world.reg.frames, FrameKey(tab, frame)).value.widget;
              Present(wid) && !HasQueued(world.reg, wid.value) && HasSaved(world, wid.value, io) ==>
                job == Some(Job(wid.value, tab, frame, Storage.FindWidget(world.store.value.workspaces, wid.value).value.customCss, false))
    // a widget frame with neither gets nothing
    ensures frame != 0 && Ordered.Get(world.reg.frames, FrameKey(tab, frame)).Some? ==>
              var wid := Ordered.Get(world.reg.frames, FrameKey(tab, frame)).value.widget;
              Present(wid) && !HasQueued(world.reg, wid.value) && !HasSaved(world, wid.value, io) ==> job.None?
  {
    if frame == 0 then None
    else match Ordered.Get(world.reg.frames, FrameKey(tab, frame))
      case None => None
      case Some(info) =>
        if Present(info.widget) then CssToApply(world, info.widget.value, tab, frame, io) else None
  }

  /** The frame a job targets is still the widget's bound frame. */
  predicate StillBound(reg: Registry, job: Job) {
    job.widget in reg.widgets && KeyOf(reg.widgets[job.widget]) == FrameKey(job.tab, job.frame)
  }

  /** The caller's `delete pendingCssInjections[widgetId]` after `injectCssWhenReady` returns. */
  function ClearIf(pending: map<WidgetId, string>, w: WidgetId, clear: bool): map<WidgetId, string> {
    if clear then pending - {w} else pending
  }

  /**
   `injectCssWhenReady` after its delay, followed by its caller's cleanup: a job
   whose frame is no longer the widget's queues the CSS; otherwise the injection
   marks the binding injected, queues the CSS when rejected, or never returns.
   */
  function Resume(world: World, job: Job, attempt: Injection.Attempt): (r: World)
    ensures r.store == world.store && r.reg.frames == world.reg.frames && r.reg.activeTabs == world.reg.activeTabs
    ensures SameBindings(world.reg.widgets, r.reg.widgets)
    ensures forall v :: v != job.widget ==>
              (v in r.reg.pending <==> v in world.reg.pending) &&
              (v in world.reg.pending ==> r.reg.pending[v] == world.reg.pending[v])
    ensures forall v :: v in r.reg.widgets && (v != job.widget || !StillBound(world.reg, job)) ==> r.reg.widgets[v] == world.reg.widgets[v]
    ensures StillBound(world.reg, job) && Injection.Outcome(attempt).Resolved? ==> r.reg.widgets[job.widget].cssInjected
    // a job that returns leaves the queue slot holding its CSS, unless its caller clears it
    ensures !(StillBound(world.reg, job) && !Injection.Outcome(attempt).Rejected?) ==>
              (job.clearAfter ==> job.widget !in r.reg.pending) &&
              (!job.clearAfter ==> job.widget in r.reg.pending && r.reg.pending[job.widget] == job.css)
    // a landed injection leaves the queue to the caller's cleanup
    ensures StillBound(world.reg, job) && Injection.Outcome(attempt).Resolved? ==>
              (job.clearAfter ==> job.widget !in r.reg.pending) &&
              (!job.clearAfter ==> r.reg.pending == world.reg.pending)
    // an injection that never settles changes nothing, not even the caller's cleanup
    ensures StillBound(world.reg, job) && Injection.Outcome(attempt).NeverSettles? ==> r == world
    ensures Inv(world.reg) ==> Inv(r.reg)
  {
    var w := job.widget;
    var reg := world.reg;
    if !StillBound(reg, job) then
      world.(reg := reg.(pending := ClearIf(reg.pending[w := job.css], w, job.clearAfter)))
    else
      match Injection.Outcome(attempt)
      case Resolved(_) =>
        world.(reg := reg.(widgets := reg.widgets[w := reg.widgets[w].(cssInjected := true)],
                           pending := ClearIf(reg.pending, w, job.clearAfter)))
      case Rejected =>
        world.(reg := reg.(pending := ClearIf(reg.pending[w := job.css], w, job.clearAfter)))
      case NeverSettles => world
  }

  /** A job whose frame is gone queues its CSS whatever the browser would have answered. */
  lemma ResumeUnboundIgnoresBrowser(world: World, job: Job, a1: Injection.Attempt, a2: Injection.Attempt)
    requires !StillBound(world.reg, job)
    ensures Resume(world, job, a1) == Resume(world, job, a2)
  {
  }

  // ---------------------------------------------------------------------
  // Where the code and its stated intent part ways
  // ---------------------------------------------------------------------

  /**
   As written, `tabs.onRemoved` keeps the queued CSS of every widget whose frame
   it purges: the frame loop unbinds those widgets before the pending-CSS loop
   looks for widgets bound to the tab, so that loop no longer sees them.
   */
  lemma OnTabRemovedKeepsPurgedWidgetsCss(world: World, tab: int, i: nat)
    requires Inv(world.reg) && tab in world.reg.activeTabs
    requires i < |world.reg.frames| && world.reg.frames[i].0.tab == tab && Present(world.reg.frames[i].1.widget)
    requires world.reg.frames[i].1.widget.value in world.reg.pending
    ensures var w := world.reg.frames[i].1.widget.value;
            w in OnTabRemoved(world, tab).reg.pending && w !in OnTabRemoved(world, tab).reg.widgets
  {
    var reg0 := world.reg.(activeTabs := world.reg.activeTabs - {tab});
    assert reg0.frames[i] == world.reg.frames[i];
  }

  /**
   `tabs.onRemoved` as its comment describes it: the queued CSS of every widget
   bound to the tab when it closed is dropped along with the binding.
   */
  function OnTabRemovedPurgingPending(world: World, tab: int): (r: World)
    ensures tab !in world.reg.activeTabs ==> r == world
    ensures r.store == world.store && r.reg.activeTabs == world.reg.activeTabs - {tab}
    ensures r.reg.frames == OnTabRemoved(world, tab).reg.frames && r.reg.widgets == OnTabRemoved(world, tab).reg.widgets
    ensures tab in world.reg.activeTabs ==>
              forall w :: w in world.reg.widgets && world.reg.widgets[w].tab == tab ==> w !in r.reg.pending
    ensures forall w :: w in world.reg.pending && !(w in world.reg.widgets && world.reg.widgets[w].tab == tab) ==>
              w in r.reg.pending && r.reg.pending[w] == world.reg.pending[w]
    ensures forall w :: w in r.reg.pending ==> w in world.reg.pending && r.reg.pending[w] == world.reg.pending[w]
  {
    if tab !in world.reg.activeTabs then world
    else
      var purged := OnTabRemoved(world, tab);
      var boundHere := set w | w in world.reg.widgets && world.reg.widgets[w].tab == tab;
      assert forall w :: w in world.reg.pending && w !in boundHere ==> w in purged.reg.pending by {
        forall w | w in world.reg.pending && w !in boundHere ensures w in purged.reg.pending {
          if w in purged.reg.widgets {
            assert purged.reg.widgets[w] == world.reg.widgets[w];
          }
        }
      }
      purged.(reg := purged.reg.(pending := map w | w in world.reg.pending && w !in boundHere :: world.reg.pending[w]))
  }

  /**
   As written, a job spawned from queued CSS (`clearAfter`) loses that CSS when
   the injection cannot happen: `injectCssWhenReady` re-queues it, and its caller
   deletes the queue slot right after.
   */
  lemma ResumeDropsRequeuedCss(world: World, job: Job, attempt: Injection.Attempt)
    requires job.clearAfter
    requires !StillBound(world.reg, job) || Injection.Outcome(attempt).Rejected?
    ensures job.widget !in Resume(world, job, attempt).reg.pending
  {
  }

  /**
   The delayed injection with the queue slot cleared only once the CSS is in:
   CSS that could not be applied stays queued for the next chance.
   */
  function ResumeKeepingQueue(world: World, job: Job, attempt: Injection.Attempt): (r: World)
    ensures r.store == world.store && r.reg.frames == world.reg.frames && r.reg.activeTabs == world.reg.activeTabs
    ensures SameBindings(world.reg.widgets, r.reg.widgets)
    ensures r.reg.widgets == Resume(world, job, attempt).reg.widgets
    ensures forall v :: v != job.widget ==>
              (v in r.reg.pending <==> v in world.reg.pending) &&
              (v in world.reg.pending ==> r.reg.pending[v] == world.reg.pending[v])
    // CSS that did not land is queued, whoever spawned the job
    ensures !StillBound(world.reg, job) || Injection.Outcome(attempt).Rejected? ==>
              job.widget in r.reg.pending && r.reg.pending[job.widget] == job.css
    // CSS that landed leaves the queue as the caller intended
    ensures StillBound(world.reg, job) && Injection.Outcome(attempt).Resolved? ==>
              r.reg.widgets[job.widget].cssInjected &&
              (job.clearAfter ==> job.widget !in r.reg.pending)
    ensures Inv(world.reg) ==> Inv(r.reg)
  {
    var w := job.widget;
    var reg := world.reg;
    if !StillBound(reg, job) then
      world.(reg := reg.(pending := reg.pending[w := job.css]))
    else
      match Injection.Outcome(attempt)
      case Resolved(_) =>
        world.(reg := reg.(widgets := reg.widgets[w := reg.widgets[w].(cssInjected := true)],
                           pending := ClearIf(reg.pending, w, job.clearAfter)))
      case Rejected =>
        world.(reg := reg.(pending := reg.pending[w := job.css]))
      case NeverSettles => world
  }

  // ---------------------------------------------------------------------
  // The background script as one event-driven system
  // ---------------------------------------------------------------------

  /** The registry, the storage document, and the delayed injections still waiting. */
  datatype System = System(world: World, jobs: seq<Job>)

  datatype Event =
    | Message(req: Request, senderTab: Option<int>, io: bool, attempt: Injection.Attempt)
    | BeforeNavigate(tab: int, frame: int, url: string, io1: bool, io2: bool)
    | TabRemoved(tab: int)
    | Completed(tab: int, frame: int, io: bool)
    | Fire(index: nat, attempt: Injection.Attempt)

  function Spawn(jobs: seq<Job>, job: Option<Job>): seq<Job> {
    if job.Some? then jobs + [job.value] else jobs
  }

  /** Which tab-removal and delayed-injection handlers the system runs: the
      code's, or the corrected ones of the two findings above. */
  datatype Variant = AsWritten | Corrected

  /** One event. Every event keeps the registry invariant, in either variant. */
  function Step(v: Variant, s: System, e: Event): (r: System)
    ensures Inv(s.world.reg) ==> Inv(r.world.reg)
    ensures |r.jobs| <= |s.jobs| + 1
    ensures e.Fire? && e.index < |s.jobs| ==> |r.jobs| == |s.jobs| - 1
    ensures r.world.reg.activeTabs == s.world.reg.activeTabs - (if e.TabRemoved? then {e.tab} else {}) +
              (if e.Message? && e.req.PrepareWidgetTracking? && HasTab(e.senderTab) then {e.senderTab.value} else {})
  {
    match e
    case Message(req, senderTab, io, attempt) =>
      var h := OnMessage(s.world, req, senderTab, io, attempt);
      System(h.world, Spawn(s.jobs, h.job))
    case BeforeNavigate(tab, frame, url, io1, io2) =>
      System(OnBeforeNavigate(s.world, tab, frame, url, io1, io2), s.jobs)
    case TabRemoved(tab) =>
      var r := if v.AsWritten? then OnTabRemoved(s.world, tab) else OnTabRemovedPurgingPending(s.world, tab);
      assert Inv(s.world.reg) ==> Inv(r.reg) by {
        if Inv(s.world.reg) { TabRemovalKeepsOthers(s.world, tab); }
      }
      System(r, s.jobs)
    case Completed(tab, frame, io) =>
      System(s.world, Spawn(s.jobs, OnCompleted(s.world, tab, frame, io)))
    case Fire(i, attempt) =>
      if i < |s.jobs| then
        var r := if v.AsWritten? then Resume(s.world, s.jobs[i], attempt) else ResumeKeepingQueue(s.world, s.jobs[i], attempt);
        System(r, s.jobs[..i] + s.jobs[i + 1..])
      else s
  }

  /** The two variants agree on everything but the CSS queue. */
  lemma VariantsDifferInQueueOnly(s: System, e: Event)
    ensures var a, c := Step(AsWritten, s, e), Step(Corrected, s, e);
            && a.jobs == c.jobs && a.world.store == c.world.store
            && a.world.reg.widgets == c.world.reg.widgets && a.world.reg.frames == c.world.reg.frames
            && a.world.reg.activeTabs == c.world.reg.activeTabs
  {
  }

  /** Every state reached from one that satisfies the invariant satisfies it too. */
  lemma {:induction false} RunKeepsInv(v: Variant, s: System, events: seq<Event>)
    requires Inv(s.world.reg)
    ensures Inv(Run(v, s, events).world.reg)
    decreases |events|
  {
    if events != [] {
      RunKeepsInv(v, Step(v, s, events[0]), events[1..]);
    }
  }

  function Run(v: Variant, s: System, events: seq<Event>): System
    decreases |events|
  {
    if events == [] then s else Run(v, Step(v, s, events[0]), events[1..])
  }

  // ---------------------------------------------------------------------
  // Scenarios
  // ---------------------------------------------------------------------

  /** Tracking a widget and then unregistering it leaves nothing that refers to it. */
  lemma TrackThenUnregister(world: World, tab: Option<int>, w: WidgetId, src: Option<string>, io: bool)
    requires Inv(world.reg) && Truthy(w)
    ensures var after := Unregister(Prepare(world, tab, Some(w), src, io).world, Some(w)).world;
            w !in after.reg.widgets && !Links(after.reg.frames, w) && w !in after.reg.pending
  {
  }

  /**
   CSS sent while a widget waits for its frame is queued; when the frame shows
   up, tracking spawns exactly one injection carrying that CSS, and once it
   lands the queue slot is empty.
   */
  lemma QueuedCssReachesFrame(world: World, w: WidgetId, css: string, tab: int, src: string,
                               io: bool, sent: Injection.Attempt, attempt: Injection.Attempt)
    requires Inv(world.reg) && Truthy(w) && !Blank(css) && tab != 0 && Truthy(src)
    requires w !in world.reg.widgets
    requires exists i :: 0 <= i < |world.reg.frames| && FrameMatches(world.reg.frames[i], tab, Url.Normalize(src))
    requires Injection.Outcome(attempt).Resolved?
    ensures var h1 := InjectCssRequest(world, Some(w), Some(css), io, sent);
            var h2 := Prepare(h1.world, Some(tab), Some(w), Some(src), io);
            && h1.reply == Some(OkWith(Queued))
            && h1.world.reg.pending[w] == css
            && h2.job.Some? && h2.job.value.widget == w && h2.job.value.css == css
            && w !in Resume(h2.world, h2.job.value, attempt).reg.pending
            && Resume(h2.world, h2.job.value, attempt).reg.widgets[w].cssInjected
  {
    var h1 := InjectCssRequest(world, Some(w), Some(css), io, sent);
    assert Unmap(h1.world.reg, w).frames == world.reg.frames;
    assert !Blank(css) ==> Truthy(css);
  }

  /**
   A finished frame that belongs to a widget gets that widget's CSS: the job it
   spawns targets the widget's bound frame, carries the queued CSS or else the
   saved CSS, and once the injection lands the binding is marked injected and
   the queue is left as the caller's cleanup says.
   */
  lemma CompletedFrameGetsCss(world: World, tab: int, frame: int, io: bool, attempt: Injection.Attempt)
    requires Inv(world.reg)
    requires OnCompleted(world, tab, frame, io).Some?
    requires Injection.Outcome(attempt).Resolved?
    ensures var job := OnCompleted(world, tab, frame, io).value;
            var r := Resume(world, job, attempt);
            && StillBound(world.reg, job)
            && (job.clearAfter ==> job.css == world.reg.pending[job.widget] && job.widget !in r.reg.pending)
            && (!job.clearAfter ==>
                  && HasSaved(world, job.widget, io)
                  && job.css == Storage.FindWidget(world.store.value.workspaces, job.widget).value.customCss
                  && r.reg.pending == world.reg.pending)
            && r.reg.widgets[job.widget].cssInjected
  {
    var job := OnCompleted(world, tab, frame, io).value;
    var info := Ordered.Get(world.reg.frames, FrameKey(tab, frame)).value;
    var i :| 0 <= i < |world.reg.frames| && world.reg.frames[i] == (FrameKey(tab, frame), info);
    assert world.reg.frames[i].1.widget == Some(job.widget);
  }

  /**
   A second navigation of the same frame leaves its entry on the second URL,
   normalised, and a widget that owns the frame stored under that normalised URL.
   */
  lemma TwoNavigations(world: World, tab: int, frame: int, u1: string, u2: string,
                       a1: bool, a2: bool, b1: bool)
    requires Inv(world.reg) && !IgnoredNavigation(frame, u1) && !IgnoredNavigation(frame, u2)
    requires world.store.Some?
    ensures var mid := OnBeforeNavigate(world, tab, frame, u1, a1, a2);
            var last := OnBeforeNavigate(mid, tab, frame, u2, b1, true);
            var info := Ordered.Get(last.reg.frames, FrameKey(tab, frame));
            && info.Some? && info.value.url == Url.Normalize(u2)
            && (Present(info.value.widget) ==>
                  var found := Storage.FindWidget(world.store.value.workspaces, info.value.widget.value);
                  found.Some? ==>
                    Storage.FindWidget(last.store.value.workspaces, info.value.widget.value) ==
                      Some(found.value.(url := Url.Normalize(u2))))
  {
    var mid := OnBeforeNavigate(world, tab, frame, u1, a1, a2);
    var info := Ordered.Get(mid.reg.frames, FrameKey(tab, frame));
    if Present(info.value.widget) {
      var w := info.value.widget.value;
      NavigationPersistsNormalizedUrl(mid, tab, frame, u2, b1);
      assert Storage.FindWidget(mid.store.value.workspaces, w).Some? <==>
             Storage.FindWidget(world.store.value.workspaces, w).Some? by {
        MidKeepsWidget(world, tab, frame, u1, a1, a2, w);
      }
      MidKeepsWidget(world, tab, frame, u1, a1, a2, w);
    }
  }

  /** A navigation rewrites at most the URL of a widget that owns the frame. */
  lemma MidKeepsWidget(world: World, tab: int, frame: int, url: string, io1: bool, io2: bool, w: WidgetId)
    requires world.store.Some?
    ensures var r := OnBeforeNavigate(world, tab, frame, url, io1, io2);
            var before := Storage.FindWidget(world.store.value.workspaces, w);
            var after := Storage.FindWidget(r.store.value.workspaces, w);
            r.store.Some? && (before.Some? <==> after.Some?) &&
            (before.Some? ==> after.value == before.value.(url := after.value.url))
  {
    if !IgnoredNavigation(frame, url) {
      var info := Ordered.Get(world.reg.frames, FrameKey(tab, frame));
      if info.Some? && Present(info.value.widget) {
        StoredNavigationReadBack(world.store, info.value.widget.value, url, io1, io2, w);
      }
    }
  }

  /**
   The tracking walk-through: a widget tracked before its frame exists waits;
   the frame then navigates to the widget's URL plus a query string; tracking
   again from that tab binds the widget to it, CSS not yet injected.
   */
  lemma TrackingWalkthrough(store: Option<AppState>, w: WidgetId, src: string, nav: string,
                            io: bool, io1: bool, io2: bool)
    requires Truthy(w)
    requires src == "https://x.test/app" && nav == "https://x.test/app?ref=abc"
    ensures var h1 := Prepare(World(Registry(map[], [], map[], {}), store), Some(5), Some(w), Some(src), io);
            var w2 := OnBeforeNavigate(h1.world, 5, 2, nav, io1, io2);
            var h3 := Prepare(w2, Some(5), Some(w), Some(src), io);
            && h1.reply == Some(Ok()) && w !in h1.world.reg.widgets
            && Ordered.Get(w2.reg.frames, FrameKey(5, 2)) == Some(FrameInfo(src, None))
            && h3.reply == Some(Ok())
            && h3.world.reg.widgets[w] == Binding(5, 2, src, false)
  {
    WalkthroughUrls(src, nav);
    WalkthroughFirst(store, w, src, io);
    WalkthroughNavigate(store, src, nav, io1, io2);
    WalkthroughBind(store, w, src, io);
  }

  /** The walk-through's URLs: the source is already normalised, and so is the navigation once its query is dropped. */
  lemma WalkthroughUrls(src: string, nav: string)
    requires src == "https://x.test/app" && nav == "https://x.test/app?ref=abc"
    ensures Url.Normalize(src) == src && Url.Normalize(nav) == src && !IgnoredNavigation(2, nav)
  {
    assert !IgnoredNavigation(2, nav) by {
      assert nav[0] == 'h' && "chrome-extension:"[0] == 'c';
    }
    assert src + "?" + "ref=abc" == nav;
    assert forall i :: 0 <= i < |src| ==> src[i] != '?';
    Url.NormalizeClean(src, "ref=abc");
    Url.NormalizeIgnoresQuery(src, "ref=abc");
  }

  /** Tracking from a tab with no frames only records the tab as active. */
  lemma WalkthroughFirst(store: Option<AppState>, w: WidgetId, src: string, io: bool)
    requires Truthy(w) && Truthy(src) && Url.Normalize(src) == src
    ensures Prepare(World(Registry(map[], [], map[], {}), store), Some(5), Some(w), Some(src), io) ==
              Handled(World(Registry(map[], [], map[], {5}), store), Some(Ok()), None)
  {
    var reg0 := Registry(map[], [], map[], {5});
    assert Unmap(reg0, w) == reg0;
  }

  /** The first navigation of an unknown frame adds its entry, owned by no widget, and leaves storage alone. */
  lemma WalkthroughNavigate(store: Option<AppState>, src: string, nav: string, io1: bool, io2: bool)
    requires Url.Normalize(nav) == src && !IgnoredNavigation(2, nav)
    ensures OnBeforeNavigate(World(Registry(map[], [], map[], {5}), store), 5, 2, nav, io1, io2) ==
              World(Registry(map[], [(FrameKey(5, 2), FrameInfo(src, None))], map[], {5}), store)
  {
    var none: Frames := [];
    assert Ordered.Get(none, FrameKey(5, 2)) == None;
  }

  /** Tracking again once the frame is known binds the widget to it. */
  lemma WalkthroughBind(store: Option<AppState>, w: WidgetId, src: string, io: bool)
    requires Truthy(w) && Truthy(src) && Url.Normalize(src) == src
    ensures var reg := Registry(map[], [(FrameKey(5, 2), FrameInfo(src, None))], map[], {5});
            var h := Prepare(World(reg, store), Some(5), Some(w), Some(src), io);
            h.reply == Some(Ok()) && h.world.reg.widgets[w] == Binding(5, 2, src, false)
  {
    var reg := Registry(map[], [(FrameKey(5, 2), FrameInfo(src, None))], map[], {5});
    assert Unmap(reg, w) == reg;
    assert FrameMatches(reg.frames[0], 5, src);
  }

}
