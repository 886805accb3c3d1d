/**
 The user settings: the defaults, how a stored settings object is merged over
 them at start-up, and the single-key update every setter goes through. The
 settings object is viewed as a record of eight keys, each with a value of its
 own type.
 */
module SettingsService {
  import opened Base
  import opened Models

  /** The keys of `AppSettings`. */
  datatype Key =
    | ThemeKey | BackgroundKey | ShowSearchBarKey | TitleOnHoverKey
    | ShowHistoryKey | ShowBookmarksKey | AccentColorKey | ShowDragHandlesOnHoverKey

  /** A value stored under some key. */
  datatype Value = ThemeValue(theme: Theme) | BackgroundValue(background: BackgroundSetting) | Flag(on: bool) | Text(text: string)

  /** The value has the type `AppSettings` declares for the key. */
  predicate Fits(k: Key, v: Value) {
    match k
    case ThemeKey => v.ThemeValue?
    case BackgroundKey => v.BackgroundValue?
    case AccentColorKey => v.Text?
    case _ => v.Flag?
  }

  /** `DEFAULT_SETTINGS`. */
  const Defaults: Settings := Settings(
    Light, BackgroundSetting(Solid, "#f8fafc"), true, false, true, true, "#3b82f6", false)

  /** `settings[k]`. */
  function Get(s: Settings, k: Key): (v: Value)
    ensures Fits(k, v)
  {
    match k
    case ThemeKey => ThemeValue(s.theme)
    case BackgroundKey => BackgroundValue(s.background)
    case ShowSearchBarKey => Flag(s.showSearchBar)
    case TitleOnHoverKey => Flag(s.titleOnHover)
    case ShowHistoryKey => Flag(s.showHistory)
    case ShowBookmarksKey => Flag(s.showBookmarks)
    case AccentColorKey => Text(s.accentColor)
    case ShowDragHandlesOnHoverKey => Flag(s.showDragHandlesOnHover)
  }

  /** Two settings objects agreeing on every key are the same object. */
  lemma SettingsExtensional(a: Settings, b: Settings)
    requires forall k :: Get(a, k) == Get(b, k)
    ensures a == b
  {
    assert Get(a, ThemeKey) == Get(b, ThemeKey);
    assert Get(a, BackgroundKey) == Get(b, BackgroundKey);
    assert Get(a, ShowSearchBarKey) == Get(b, ShowSearchBarKey);
    assert Get(a, TitleOnHoverKey) == Get(b, TitleOnHoverKey);
    assert Get(a, ShowHistoryKey) == Get(b, ShowHistoryKey);
    assert Get(a, ShowBookmarksKey) == Get(b, ShowBookmarksKey);
    assert Get(a, AccentColorKey) == Get(b, AccentColorKey);
    assert Get(a, ShowDragHandlesOnHoverKey) == Get(b, ShowDragHandlesOnHoverKey);
  }

  /** `updateSetting(k, v)`: `{...prev, [k]: v}`, for a value of the key's type. */
  function UpdateSetting(s: Settings, k: Key, v: Value): (r: Settings)
    requires Fits(k, v)
    ensures Get(r, k) == v
    ensures forall other :: other != k ==> Get(r, other) == Get(s, other)
  {
    match k
    case ThemeKey => s.(theme := v.theme)
    case BackgroundKey => s.(background := v.background)
    case ShowSearchBarKey => s.(showSearchBar := v.on)
    case TitleOnHoverKey => s.(titleOnHover := v.on)
    case ShowHistoryKey => s.(showHistory := v.on)
    case ShowBookmarksKey => s.(showBookmarks := v.on)
    case AccentColorKey => s.(accentColor := v.text)
    case ShowDragHandlesOnHoverKey => s.(showDragHandlesOnHover := v.on)
  }

  /** Writing a key twice keeps the last write; writing what is already there changes nothing. */
  lemma UpdateSettingLaws(s: Settings, k: Key, v1: Value, v2: Value)
    requires Fits(k, v1) && Fits(k, v2)
    ensures UpdateSetting(UpdateSetting(s, k, v1), k, v2) == UpdateSetting(s, k, v2)
    ensures UpdateSetting(s, k, Get(s, k)) == s
  {
    SettingsExtensional(UpdateSetting(UpdateSetting(s, k, v1), k, v2), UpdateSetting(s, k, v2));
    SettingsExtensional(UpdateSetting(s, k, Get(s, k)), s);
  }

  /** Updates of different keys commute. */
  lemma UpdatesCommute(s: Settings, k1: Key, v1: Value, k2: Key, v2: Value)
    requires k1 != k2 && Fits(k1, v1) && Fits(k2, v2)
    ensures UpdateSetting(UpdateSetting(s, k1, v1), k2, v2) == UpdateSetting(UpdateSetting(s, k2, v2), k1, v1)
  {
    var a := UpdateSetting(UpdateSetting(s, k1, v1), k2, v2);
    var b := UpdateSetting(UpdateSetting(s, k2, v2), k1, v1);
    forall k ensures Get(a, k) == Get(b, k) {
      if k == k1 {
        assert Get(a, k) == v1;
      } else if k == k2 {
        assert Get(b, k) == v2;
      }
    }
    SettingsExtensional(a, b);
  }

  // The per-key setters: each is `updateSetting` with its own key.

  function SetTheme(s: Settings, theme: Theme): (r: Settings)
    ensures r == s.(theme := theme)
  {
    UpdateSetting(s, ThemeKey, ThemeValue(theme))
  }

  function SetBackground(s: Settings, background: BackgroundSetting): (r: Settings)
    ensures r == s.(background := background)
  {
    UpdateSetting(s, BackgroundKey, BackgroundValue(background))
  }

  function SetShowSearchBar(s: Settings, show: bool): (r: Settings)
    ensures r == s.(showSearchBar := show)
  {
    UpdateSetting(s, ShowSearchBarKey, Flag(show))
  }

  function SetTitleOnHover(s: Settings, show: bool): (r: Settings)
    ensures r == s.(titleOnHover := show)
  {
    UpdateSetting(s, TitleOnHoverKey, Flag(show))
  }

  function SetShowHistory(s: Settings, show: bool): (r: Settings)
    ensures r == s.(showHistory := show)
  {
    UpdateSetting(s, ShowHistoryKey, Flag(show))
  }

  function SetShowBookmarks(s: Settings, show: bool): (r: Settings)
    ensures r == s.(showBookmarks := show)
  {
    UpdateSetting(s, ShowBookmarksKey, Flag(show))
  }

  function SetAccentColor(s: Settings, color: string): (r: Settings)
    ensures r == s.(accentColor := color)
  {
    UpdateSetting(s, AccentColorKey, Text(color))
  }

  function SetShowDragHandlesOnHover(s: Settings, show: bool): (r: Settings)
    ensures r == s.(showDragHandlesOnHover := show)
  {
    UpdateSetting(s, ShowDragHandlesOnHoverKey, Flag(show))
  }

  // ---------------------------------------------------------------------
  // loadSettings
  // ---------------------------------------------------------------------

  /** A stored settings object: the keys it has, each with a value of the declared type. */
  type Stored = map<Key, Value>

  predicate WellTyped(m: Stored) {
    forall k :: k in m ==> Fits(k, m[k])
  }

  /** The value under `k` after `{...DEFAULT_SETTINGS, ...stored}`. */
  function Pick(stored: Stored, k: Key): (v: Value)
    requires WellTyped(stored)
    ensures Fits(k, v)
  {
    if k in stored then stored[k] else Get(Defaults, k)
  }

  /** `{...DEFAULT_SETTINGS, ...stored}`: stored keys win, missing keys take the default. */
  function Merge(stored: Stored): (r: Settings)
    requires WellTyped(stored)
    ensures forall k :: Get(r, k) == if k in stored then stored[k] else Get(Defaults, k)
  {
    Settings(
      Pick(stored, ThemeKey).theme,
      Pick(stored, BackgroundKey).background,
      Pick(stored, ShowSearchBarKey).on,
      Pick(stored, TitleOnHoverKey).on,
      Pick(stored, ShowHistoryKey).on,
      Pick(stored, ShowBookmarksKey).on,
      Pick(stored, AccentColorKey).text,
      Pick(stored, ShowDragHandlesOnHoverKey).on)
  }

  /** A stored object holding every key is taken as it is; an empty one gives the defaults. */
  lemma MergeExtremes(s: Settings)
    ensures var full := map k: Key | true :: Get(s, k);
            WellTyped(full) && Merge(full) == s
    ensures Merge(map[]) == Defaults
  {
    var full := map k: Key | true :: Get(s, k);
    SettingsExtensional(Merge(full), s);
    SettingsExtensional(Merge(map[]), Defaults);
  }

  /** How the read at start-up went. */
  datatype LoadOutcome =
    | StorageUnavailable              // `chrome.storage.local` is missing
    | ReadFailed                      // the read threw or set `runtime.lastError`
    | ReadDone(stored: Option<Stored>) // the value under the `settings` key, if any

  /** The signal's value after loading, whether defaults were written back, and the initialised flag. */
  datatype Loaded = Loaded(settings: Settings, savesDefaults: bool, initialized: bool)

  /**
   `loadSettings`: a non-empty stored object is merged over the defaults; a
   missing or empty one gives the defaults and writes them back; an unavailable
   storage API or a failed read gives the defaults without writing. Every path
   ends initialised.
   */
  function LoadSettings(o: LoadOutcome): (r: Loaded)
    requires o.ReadDone? && o.stored.Some? ==> WellTyped(o.stored.value)
    ensures r.initialized
    ensures o.ReadDone? && o.stored.Some? && |o.stored.value| > 0 ==>
              forall k :: Get(r.settings, k) == if k in o.stored.value then o.stored.value[k] else Get(Defaults, k)
    ensures !(o.ReadDone? && o.stored.Some? && |o.stored.value| > 0) ==> r.settings == Defaults
    ensures r.savesDefaults <==> o.ReadDone? && (o.stored.None? || |o.stored.value| == 0)
  {
    match o
    case StorageUnavailable => Loaded(Defaults, false, true)
    case ReadFailed => Loaded(Defaults, false, true)
    case ReadDone(stored) =>
      if stored.Some? && |stored.value| > 0 then Loaded(Merge(stored.value), false, true)
      else Loaded(Defaults, true, true)
  }

  /** Loading what a previous session left behind after a setter gives that session's settings back. */
  lemma SaveThenLoad(s: Settings, k: Key, v: Value)
    requires Fits(k, v)
    ensures var saved := UpdateSetting(s, k, v);
            var stored := map key: Key | true :: Get(saved, key);
            WellTyped(stored) && LoadSettings(ReadDone(Some(stored))).settings == saved
  {
    var saved := UpdateSetting(s, k, v);
    var stored := map key: Key | true :: Get(saved, key);
    assert ThemeKey in stored;
    MergeExtremes(saved);
  }
}
