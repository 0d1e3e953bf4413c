/** The Safari background script: the defaults written on install, the
    settings handed to the popup, the settings it saves, and the toolbar
    badge text. `chrome.storage.sync` is a map from key to stored value. */
module Background {
  import opened Text

  /** The JavaScript values a storage key can hold, as far as the
      defaulting can tell them apart; an absent key reads `undefined`. */
  datatype JsValue =
    | Undefined
    | Null
    | Bool(b: bool)
    | Num(n: int)
    | Str(s: string)
    | Object

  /** JavaScript truthiness, the test behind `||`. */
  predicate Truthy(v: JsValue) {
    match v
    case Undefined => false
    case Null => false
    case Bool(b) => b
    case Num(n) => n != 0
    case Str(s) => s != ""
    case Object => true
  }

  type Storage = map<string, JsValue>

  /** `chrome.storage.sync.get`: an absent key reads `undefined`. */
  function Get(store: Storage, key: string): JsValue {
    if key in store then store[key] else Undefined
  }

  /** The settings object the popup receives. */
  datatype Settings = Settings(enabled: bool, autoDetect: bool, theme: JsValue)

  const DefaultTheme: JsValue := Str("default")

  /** The `getSettings` handler: `enabled` and `autoDetect` are true unless
      stored as exactly `false`; `theme` is the stored value when it is
      truthy and `'default'` otherwise. */
  function GetSettings(store: Storage): (r: Settings)
    ensures !r.enabled <==> Get(store, "enabled") == Bool(false)
    ensures !r.autoDetect <==> Get(store, "autoDetect") == Bool(false)
    ensures Truthy(r.theme)
    ensures r.theme != Get(store, "theme") ==> r.theme == DefaultTheme
    ensures Truthy(Get(store, "theme")) ==> r.theme == Get(store, "theme")
  {
    Settings(Get(store, "enabled") != Bool(false),
             Get(store, "autoDetect") != Bool(false),
             if Truthy(Get(store, "theme")) then Get(store, "theme") else DefaultTheme)
  }

  /** The `saveSettings` handler with the object the popup sends: the three
      keys are written, every other key is kept. */
  function SaveSettings(store: Storage, enabled: bool, autoDetect: bool, theme: string): (r: Storage)
    ensures r.Keys == store.Keys + {"enabled", "autoDetect", "theme"}
    ensures forall k :: k in store && k !in {"enabled", "autoDetect", "theme"} ==> r[k] == store[k]
    ensures r["enabled"] == Bool(enabled) && r["autoDetect"] == Bool(autoDetect) && r["theme"] == Str(theme)
  {
    store["enabled" := Bool(enabled)]["autoDetect" := Bool(autoDetect)]["theme" := Str(theme)]
  }

  /** The `onInstalled` listener: the defaults are written only on a first
      install, never on an update. */
  function OnInstalled(store: Storage, reason: string): (r: Storage)
    ensures reason != "install" ==> r == store
  {
    if reason == "install" then SaveSettings(store, true, true, "default") else store
  }

  /** The `updateBadge` handler: the decimal count when positive, nothing
      otherwise. */
  function BadgeText(count: int): (r: string)
    ensures r == "" <==> count <= 0
    ensures forall i :: 0 <= i < |r| ==> IsDigit(r[i])
  {
    if count > 0 then NatToString(count) else ""
  }

  // ---------------------------------------------------------------------------
  // Properties
  // ---------------------------------------------------------------------------

  /** An empty store and a fresh install both read as the defaults. */
  lemma DefaultsAfterInstall(store: Storage)
    ensures GetSettings(map[]) == Settings(true, true, DefaultTheme)
    ensures GetSettings(OnInstalled(store, "install")) == Settings(true, true, DefaultTheme)
  {
  }

  /** Saving and reading back gives the saved settings, unless the theme was
      the empty string, which reads back as `default`. */
  lemma SaveGetRoundTrip(store: Storage, enabled: bool, autoDetect: bool, theme: string)
    ensures var r := GetSettings(SaveSettings(store, enabled, autoDetect, theme));
            && r.enabled == enabled && r.autoDetect == autoDetect
            && r.theme == (if theme == "" then DefaultTheme else Str(theme))
  {
  }

  /** Only a stored `false` disables: the string "false" or the number 0
      leave the extension enabled. */
  lemma OnlyFalseDisables()
    ensures GetSettings(map["enabled" := Str("false")]).enabled
    ensures GetSettings(map["enabled" := Num(0)]).enabled
    ensures !GetSettings(map["enabled" := Bool(false)]).enabled
  {
  }

  /** The badge text reads back as the count it shows. */
  lemma BadgeRoundTrip(count: int)
    requires count > 0
    ensures ParseDecimal(BadgeText(count)) == count
  {
    NatToStringRoundTrip(count);
  }
}
