/**
 The root component: the page background's inline style, computed from the
 background setting, and the full-screen toggle. A style is a map from CSS
 property name to value.
 */
module AppComponent {
  import opened Base
  import opened Models
  import SettingsService

  type Style = map<string, string>

  /** Properties every non-empty background style carries. */
  const BaseStyles: Style := map[
    "background-size" := "cover",
    "background-position" := "center",
    "background-repeat" := "no-repeat",
    "transition" := "background 0.3s ease-in-out"]

  /** The value `backgroundStyles` hands to `background-image` for an image background. */
  function ImageUrl(value: string): (r: string)
    ensures StartsWith(r, "url(")
    ensures StartsWith(value, "url(") ==> r == value
    ensures !StartsWith(value, "url(") ==> r == "url('" + value + "')"
  {
    if StartsWith(value, "url(") then value
    else
      var r := "url('" + value + "')";
      assert r[..4] == "url(";
      r
  }

  /** Wrapping an image value is done at most once. */
  lemma ImageUrlIdempotent(value: string)
    ensures ImageUrl(ImageUrl(value)) == ImageUrl(value)
  {
  }

  /** `style` carries the base properties unchanged. */
  predicate HasBase(style: Style) {
    forall p :: p in BaseStyles ==> p in style && style[p] == BaseStyles[p]
  }

  /**
   `backgroundStyles`: no style for an empty value or the `custom` image
   placeholder; otherwise the base properties plus, for a solid colour, the
   colour with no image; for a gradient, the `background` shorthand; for an
   image, the image (wrapped in `url('…')` unless it already is a `url(`),
   fixed and over a transparent colour.
   */
  function BackgroundStyles(bg: BackgroundSetting): (r: Style)
    ensures !Truthy(bg.value) || (bg.kind == Image && bg.value == "custom") <==> r == map[]
    ensures r != map[] ==> HasBase(r)
    ensures Truthy(bg.value) && bg.kind == Solid ==>
              && r.Keys == BaseStyles.Keys + {"background-color", "background-image"}
              && r["background-color"] == bg.value && r["background-image"] == "none"
    ensures Truthy(bg.value) && bg.kind == Gradient ==>
              && r.Keys == BaseStyles.Keys + {"background"}
              && r["background"] == bg.value
    ensures Truthy(bg.value) && bg.kind == Image && bg.value != "custom" ==>
              && r.Keys == BaseStyles.Keys + {"background-image", "background-color", "background-attachment"}
              && r["background-image"] == ImageUrl(bg.value)
              && r["background-color"] == "transparent"
              && r["background-attachment"] == "fixed"
  {
    if !Truthy(bg.value) then map[]
    else match bg.kind
      case Solid =>
        var r := BaseStyles["background-color" := bg.value]["background-image" := "none"];
        assert "background-image" in r;
        r
      case Gradient =>
        var r := BaseStyles["background" := bg.value];
        assert "background" in r;
        r
      case Image =>
        if bg.value == "custom" then map[]
        else
          var r := BaseStyles["background-image" := ImageUrl(bg.value)]["background-color" := "transparent"]
                             ["background-size" := "cover"]["background-position" := "center"]
                             ["background-repeat" := "no-repeat"]["background-attachment" := "fixed"];
          assert "background-image" in r;
          r
  }

  /** An image value and its `url('…')` form paint the same background. */
  lemma ImageStyleWrapsOnce(value: string)
    requires Truthy(value) && value != "custom"
    ensures BackgroundStyles(BackgroundSetting(Image, ImageUrl(value))) == BackgroundStyles(BackgroundSetting(Image, value))
  {
    ImageUrlIdempotent(value);
    assert ImageUrl(value) != "custom" by {
      assert ImageUrl(value)[..4] == "url(";
    }
  }

  /**
   A non-empty style shows the setting it came from: two settings that give the
   same style have the same kind, the same colour or gradient, and the same
   image once wrapped.
   */
  lemma StyleShowsSetting(a: BackgroundSetting, b: BackgroundSetting)
    requires BackgroundStyles(a) != map[] && BackgroundStyles(a) == BackgroundStyles(b)
    ensures a.kind == b.kind
    ensures a.kind != Image ==> a.value == b.value
    ensures a.kind == Image ==> ImageUrl(a.value) == ImageUrl(b.value)
  {
    var r := BackgroundStyles(a);
    assert "background" in r <==> a.kind == Gradient;
    assert "background" in r <==> b.kind == Gradient;
    assert "background-attachment" in r <==> a.kind == Image;
    assert "background-attachment" in r <==> b.kind == Image;
  }

  /** With the default settings the page is painted slate-50 and shows no image. */
  lemma DefaultBackground()
    ensures var style := BackgroundStyles(SettingsService.Defaults.background);
            style["background-color"] == "#f8fafc" && style["background-image"] == "none"
  {
    assert Truthy(SettingsService.Defaults.background.value);
  }

  /** `toggleFullscreen`: the header is hidden exactly when it was shown. */
  function ToggleFullscreen(fullscreen: bool): (r: bool)
    ensures r != fullscreen
  {
    !fullscreen
  }

  /** Two toggles restore the layout. */
  lemma ToggleTwice(fullscreen: bool)
    ensures ToggleFullscreen(ToggleFullscreen(fullscreen)) == fullscreen
  {
  }
}
