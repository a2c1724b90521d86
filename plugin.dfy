/**
 * The Obsidian plugin (main.ts). On start it merges its stored settings over
 * the defaults; when a font is chosen it either applies the CSS it cached for
 * that font or builds the CSS from the font file, caches it and records the
 * font as processed. The vault is a map from paths to files and the
 * document head a sequence of style elements.
 */
module Plugin {
  import opened Wrappers
  import opened Base64
  import opened JsString

  // ---- Settings (DEFAULT_SETTINGS, loadSettings) ----

  /** The settings object: its string-valued properties by name. */
  type Settings = map<string, string>

  const FontKey: string := "font"
  const ProcessedKey: string := "processed_font"

  const DefaultSettings: Settings := map[FontKey := "None", ProcessedKey := ""]

  /**
   * `Object.assign({}, DEFAULT_SETTINGS, loaded)`: every property of the
   * loaded data, and the default for each property it lacks. `None` is the
   * `null` that `loadData` gives when nothing was saved.
   */
  function MergeSettings(loaded: Option<Settings>): (settings: Settings)
    ensures FontKey in settings && ProcessedKey in settings
    ensures loaded.Some? ==> forall k | k in loaded.value :: k in settings && settings[k] == loaded.value[k]
    ensures forall k | k in settings && (loaded.None? || k !in loaded.value) :: k in DefaultSettings && settings[k] == DefaultSettings[k]
  {
    match loaded
    case None => DefaultSettings
    case Some(data) => DefaultSettings + data
  }

  /** Settings that already hold both properties are their own merge: what the plugin saves, it loads back unchanged. */
  lemma MergeSaved(settings: Settings)
    requires FontKey in settings && ProcessedKey in settings
    ensures MergeSettings(Some(settings)) == settings
  {
    var merged := MergeSettings(Some(settings));
    assert merged.Keys == settings.Keys;
  }

  /** With nothing saved, the font is `None` and no font has been processed. */
  lemma MergeNothing()
    ensures MergeSettings(None)[FontKey] == "None" && MergeSettings(None)[ProcessedKey] == ""
  {
  }

  /** The test in `onload`: no font property, an empty one, or one that is `none` in any case, means no font. */
  predicate IsNoneFont(settings: Settings) {
    FontKey !in settings || settings[FontKey] == "" || ToLower(settings[FontKey]) == "none"
  }

  /** The default settings select no font. */
  lemma DefaultIsNone()
    ensures IsNoneFont(MergeSettings(None))
  {
    var lower := ToLower("None");
    assert lower[0] == 'n' && lower[1] == 'o' && lower[2] == 'n' && lower[3] == 'e';
  }

  // ---- The document head (applyCss) ----

  const SlotId: string := "custom-font-plugin-css"

  /** A `<style>` element of the document head: its `id` and its text. */
  datatype Style = Style(id: string, css: string)

  /** `document.getElementById(id)` over the head: the first element holding the id. */
  function FindById(head: seq<Style>, id: string): (r: Option<nat>)
    ensures r.Some? ==> r.value < |head| && head[r.value].id == id
    ensures r.Some? ==> forall k | 0 <= k < r.value :: head[k].id != id
    ensures r.None? ==> forall k | 0 <= k < |head| :: head[k].id != id
    decreases |head|
  {
    if head == [] then None
    else if head[0].id == id then Some(0)
    else match FindById(head[1..], id)
      case None => None
      case Some(k) => Some(k + 1)
  }

  /** The head without its first element holding `id`, if there is one. */
  function RemoveFirst(head: seq<Style>, id: string): seq<Style> {
    match FindById(head, id)
    case None => head
    case Some(k) => head[..k] + head[k + 1..]
  }

  /** The head after `applyCss(css)`. */
  function AfterApplyCss(head: seq<Style>, css: string): seq<Style> {
    RemoveFirst(head, SlotId) + [Style(SlotId, css)]
  }

  /** How many elements hold `id`. */
  function CountId(head: seq<Style>, id: string): nat
    decreases |head|
  {
    if head == [] then 0 else (if head[0].id == id then 1 else 0) + CountId(head[1..], id)
  }

  /** The elements that do not hold `id`, in order. */
  function Others(head: seq<Style>, id: string): seq<Style>
    decreases |head|
  {
    if head == [] then []
    else (if head[0].id == id then [] else [head[0]]) + Others(head[1..], id)
  }

  lemma {:induction false} CountIdConcat(a: seq<Style>, b: seq<Style>, id: string)
    ensures CountId(a + b, id) == CountId(a, id) + CountId(b, id)
    decreases |a|
  {
    if a == [] {
      assert a + b == b;
    } else {
      assert (a + b)[1..] == a[1..] + b;
      CountIdConcat(a[1..], b, id);
    }
  }

  lemma {:induction false} OthersConcat(a: seq<Style>, b: seq<Style>, id: string)
    ensures Others(a + b, id) == Others(a, id) + Others(b, id)
    decreases |a|
  {
    if a == [] {
      assert a + b == b;
    } else {
      assert (a + b)[1..] == a[1..] + b;
      OthersConcat(a[1..], b, id);
    }
  }

  /** Removing the first holder of `id` drops one holder and keeps every other element, in order. */
  lemma RemoveFirstEffect(head: seq<Style>, id: string)
    ensures CountId(RemoveFirst(head, id), id) == (if CountId(head, id) == 0 then 0 else CountId(head, id) - 1)
    ensures Others(RemoveFirst(head, id), id) == Others(head, id)
  {
    match FindById(head, id)
    case None =>
      NoHolder(head, id);
    case Some(k) =>
      var before, holder, after := head[..k], head[k], head[k + 1..];
      assert head == before + [holder] + after;
      assert RemoveFirst(head, id) == before + after;
      RemoveAtCount(before, holder, after, id);
      RemoveAtOthers(before, holder, after, id);
  }

  /** Dropping one holder of `id` from between two parts lowers the count of holders by one. */
  lemma RemoveAtCount(before: seq<Style>, holder: Style, after: seq<Style>, id: string)
    requires holder.id == id
    ensures CountId(before + [holder] + after, id) == CountId(before + after, id) + 1
  {
    CountIdConcat(before + [holder], after, id);
    CountIdConcat(before, [holder], id);
    CountIdConcat(before, after, id);
    assert [holder][1..] == [];
  }

  /** Dropping one holder of `id` from between two parts leaves the other elements as they were. */
  lemma RemoveAtOthers(before: seq<Style>, holder: Style, after: seq<Style>, id: string)
    requires holder.id == id
    ensures Others(before + [holder] + after, id) == Others(before + after, id)
  {
    OthersConcat(before + [holder], after, id);
    OthersConcat(before, [holder], id);
    OthersConcat(before, after, id);
    assert [holder][1..] == [];
  }

  /** A head where no element holds `id` has no holder to count. */
  lemma {:induction false} NoHolder(head: seq<Style>, id: string)
    requires forall k | 0 <= k < |head| :: head[k].id != id
    ensures CountId(head, id) == 0
    decreases |head|
  {
    if head != [] {
      NoHolder(head[1..], id);
    }
  }

  /**
   * `applyCss` fills the single slot: the new element, holding the slot's id
   * and exactly `css`, is last; the previous first holder is gone; the
   * number of holders stays the same, or becomes one if there was none; and
   * every element not holding the slot's id is still there, in order.
   */
  lemma ApplyCssEffect(head: seq<Style>, css: string)
    ensures var h := AfterApplyCss(head, css);
      && |h| > 0 && h[|h| - 1] == Style(SlotId, css)
      && h[..|h| - 1] == RemoveFirst(head, SlotId)
      && CountId(h, SlotId) == (if CountId(head, SlotId) == 0 then 1 else CountId(head, SlotId))
      && Others(h, SlotId) == Others(head, SlotId)
  {
    var h := AfterApplyCss(head, css);
    var r := RemoveFirst(head, SlotId);
    RemoveFirstEffect(head, SlotId);
    CountIdConcat(r, [Style(SlotId, css)], SlotId);
    OthersConcat(r, [Style(SlotId, css)], SlotId);
    assert [Style(SlotId, css)][1..] == [];
    assert h[..|h| - 1] == r;
  }

  /** The single-slot invariant: with at most one holder before, exactly one holder after, holding `css`. */
  lemma ApplyCssSlot(head: seq<Style>, css: string)
    requires CountId(head, SlotId) <= 1
    ensures var h := AfterApplyCss(head, css);
      CountId(h, SlotId) == 1 && FindById(h, SlotId) == Some(|h| - 1)
  {
    var h := AfterApplyCss(head, css);
    ApplyCssEffect(head, css);
    var r := h[..|h| - 1];
    RemoveFirstEffect(head, SlotId);
    assert CountId(r, SlotId) == 0;
    NoHolderBefore(r, SlotId);
    assert h == r + [h[|h| - 1]];
  }

  /** A sequence with no holder has no element holding the id. */
  lemma {:induction false} NoHolderBefore(head: seq<Style>, id: string)
    requires CountId(head, id) == 0
    ensures forall k | 0 <= k < |head| :: head[k].id != id
    decreases |head|
  {
    if head != [] {
      NoHolderBefore(head[1..], id);
      forall k | 1 <= k < |head| ensures head[k].id != id {
        assert head[k] == head[1..][k - 1];
      }
    }
  }

  // ---- The CSS the plugin builds for one font (onload, cache miss) ----

  const CachePath: string := ".obsidian/plugins/obsidian-farsi-font/converted.css"
  const FontDir: string := ".obsidian/fonts/"

  // The text of the plugin's CSS around the font name and the base64 payload.
  const PluginOpen: string := "\n  @font-face {\n    font-family: '"
  const PluginMiddle: string := "';\n    src: url(data:font/woff;base64,"

  function PluginClose(fontName: string): string {
    ")\n  }\n  :root {\n\t--default-font: " + fontName + ";\n\t--font-family-editor: " + fontName + ";\n  }\n"
  }

  /** The template literal of `onload`: a `font/woff` face for the name and two variables set to it. */
  function PluginCss(fontName: string, base64: string): string {
    PluginOpen + fontName + PluginMiddle + base64 + PluginClose(fontName)
  }

  /** The font name: the font's file name with its first `.woff` removed (`replace('.woff', '')`). */
  function FontName(font: string): string {
    ReplaceFirst(font, ".woff", "")
  }

  /** A `.woff` file and a `.woff2` file with one `.woff`: the first loses its extension, the second keeps a `2`. */
  lemma FontNameOfWoff(stem: string, rest: string)
    requires forall k | 0 <= k < |stem| :: !OccursAt(stem + ".woff" + rest, ".woff", k)
    ensures FontName(stem + ".woff" + rest) == stem + rest
  {
    ReplaceFirstAt(stem, ".woff", rest, "");
    assert stem + "" + rest == stem + rest;
  }

  /**
   * Reads the plugin's CSS back: the name runs to the first quote, the
   * payload to the first `)`, and what follows must be the closing text
   * for that name.
   */
  function ParsePluginCss(css: string): Option<(string, string)> {
    if !StartsWith(css, PluginOpen) then None
    else
      var r1 := css[|PluginOpen|..];
      var fontName := FirstPart(r1, '\'');
      var r2 := r1[|fontName|..];
      if !StartsWith(r2, PluginMiddle) then None
      else
        var r3 := r2[|PluginMiddle|..];
        var payload := FirstPart(r3, ')');
        if r3[|payload|..] != PluginClose(fontName) then None
        else Some((fontName, payload))
  }

  lemma Regroup4(a: string, b: string, c: string, d: string, e: string)
    ensures a + b + c + d + e == a + (b + (c + (d + e)))
  {
  }

  /** The plugin's CSS carries the font name and the payload, for a name without a quote. */
  lemma ParsePluginCssText(fontName: string, base64: string)
    requires '\'' !in fontName && ')' !in base64
    ensures ParsePluginCss(PluginCss(fontName, base64)) == Some((fontName, base64))
  {
    var close := PluginClose(fontName);
    var r3 := base64 + close;
    var r2 := PluginMiddle + r3;
    var r1 := fontName + r2;
    var css := PluginCss(fontName, base64);
    Regroup4(PluginOpen, fontName, PluginMiddle, base64, close);
    assert css == PluginOpen + r1;
    assert css[|PluginOpen|..] == r1;
    assert r2 == ['\''] + (r2[1..]);
    assert r1 == fontName + ['\''] + r2[1..];
    FirstPartBefore(fontName, r2[1..], '\'');
    assert r1[|fontName|..] == r2;
    assert r2[|PluginMiddle|..] == r3;
    assert close[0] == ')';
    assert r3 == base64 + [')'] + close[1..];
    FirstPartBefore(base64, close[1..], ')');
    assert r3[|base64|..] == close;
  }

  /** A base64 text holds no `)`. */
  lemma EncodeHasNoParen(bytes: seq<byte>)
    ensures ')' !in Encode(bytes)
  {
    var s := Encode(bytes);
    forall i | 0 <= i < |s| ensures s[i] != ')' {
      LetterAt(bytes, i);
    }
  }

  /** What the cache miss writes names the font and carries its bytes: reading it back and decoding gives them. */
  lemma PluginCssRoundTrip(font: string, bytes: seq<byte>)
    requires '\'' !in FontName(font)
    ensures var parsed := ParsePluginCss(PluginCss(FontName(font), Encode(bytes)));
      parsed == Some((FontName(font), Encode(bytes))) && Decode(parsed.value.1) == Some(bytes)
  {
    EncodeHasNoParen(bytes);
    ParsePluginCssText(FontName(font), Encode(bytes));
    DecodeEncode(bytes);
  }

  // ---- Activation (onload) ----

  /** A vault file, as the text or the binary reads of the adapter see it. */
  datatype VaultFile = TextFile(text: string) | BinaryFile(data: seq<byte>)

  /** What activation did. */
  datatype Outcome = Skipped | CacheApplied | Converted | Failed

  /** The state activation works on: the settings, the vault, the document head and the last saved settings. */
  datatype PluginState = PluginState(settings: Settings, vault: map<string, VaultFile>, head: seq<Style>, saved: Option<Settings>)

  /** `font == processed_font` and the cache file exists. */
  predicate IsCacheHit(s: PluginState) {
    FontKey in s.settings && ProcessedKey in s.settings
    && s.settings[FontKey] == s.settings[ProcessedKey] && CachePath in s.vault
  }

  /**
   * The body of the `try` in `onload`: nothing for no font; on a cache hit
   * the cached text applied to the head; otherwise the font file encoded,
   * its CSS written to the cache path, the font recorded as processed and
   * the settings saved, without applying the CSS. A read that fails ends
   * the step with nothing changed.
   */
  function Activation(s: PluginState): (PluginState, Outcome) {
    if IsNoneFont(s.settings) then (s, Skipped)
    else if IsCacheHit(s) then
      match s.vault[CachePath]
      case TextFile(text) => (s.(head := AfterApplyCss(s.head, text)), CacheApplied)
      case BinaryFile(_) => (s, Failed)
    else
      var font := s.settings[FontKey];
      var file := FontDir + font;
      if file !in s.vault || !s.vault[file].BinaryFile? then (s, Failed)
      else
        var css := PluginCss(FontName(font), Encode(s.vault[file].data));
        var settings := s.settings[ProcessedKey := font];
        (PluginState(settings, s.vault[CachePath := TextFile(css)], s.head, Some(settings)), Converted)
  }

  /** With no font, activation reads, writes and applies nothing and leaves the settings. */
  lemma NoneSkips(s: PluginState)
    requires IsNoneFont(s.settings)
    ensures Activation(s) == (s, Skipped)
  {
  }

  /** A cache hit applies the cached text exactly and changes nothing but the head. */
  lemma CacheHitApplies(s: PluginState)
    requires !IsNoneFont(s.settings) && IsCacheHit(s) && s.vault[CachePath].TextFile?
    ensures var (t, outcome) := Activation(s);
      outcome == CacheApplied && t.head == AfterApplyCss(s.head, s.vault[CachePath].text)
      && t.settings == s.settings && t.vault == s.vault && t.saved == s.saved
  {
  }

  /**
   * A cache miss writes the CSS for the font's bytes to the cache path,
   * records the font as processed, saves the settings, and leaves the head
   * alone; every other vault file stays as it was.
   */
  lemma CacheMissConverts(s: PluginState)
    requires !IsNoneFont(s.settings) && !IsCacheHit(s)
    requires FontDir + s.settings[FontKey] in s.vault && s.vault[FontDir + s.settings[FontKey]].BinaryFile?
    ensures var (t, outcome) := Activation(s);
      var font := s.settings[FontKey];
      && outcome == Converted
      && t.vault == s.vault[CachePath := TextFile(PluginCss(FontName(font), Encode(s.vault[FontDir + font].data)))]
      && t.settings == s.settings[ProcessedKey := font]
      && t.settings[ProcessedKey] == font && t.settings[FontKey] == font
      && t.saved == Some(t.settings) && t.head == s.head
  {
  }

  /** A step that ends in `Failed` or `Skipped` changes nothing. */
  lemma UnchangedUnlessDone(s: PluginState)
    ensures Activation(s).1 in {Skipped, Failed} ==> Activation(s).0 == s
  {
  }

  /** The cache miss never applies CSS, and only a cache hit changes the head. */
  lemma OnlyHitApplies(s: PluginState)
    ensures Activation(s).0.head != s.head ==> Activation(s).1 == CacheApplied
  {
  }

  /**
   * Memoisation: after a conversion the next activation, with the same
   * settings or with the saved settings loaded back, is a cache hit that
   * applies exactly the text the conversion wrote, with no encoding.
   */
  lemma Memoised(s: PluginState)
    requires Activation(s).1 == Converted
    ensures var t := Activation(s).0;
      var css := t.vault[CachePath].text;
      && Activation(t) == (t.(head := AfterApplyCss(t.head, css)), CacheApplied)
      && MergeSettings(t.saved) == t.settings
  {
    var t := Activation(s).0;
    assert t.settings[FontKey] == s.settings[FontKey];
    assert IsCacheHit(t);
    MergeSaved(t.settings);
  }

  /** After a conversion, the applied text reads back as the font's name and its encoded bytes. */
  lemma ConvertedCssCarriesFont(s: PluginState)
    requires Activation(s).1 == Converted
    requires '\'' !in FontName(s.settings[FontKey])
    ensures var t := Activation(s).0;
      var font := s.settings[FontKey];
      var parsed := ParsePluginCss(t.vault[CachePath].text);
      parsed == Some((FontName(font), Encode(s.vault[FontDir + font].data)))
      && Decode(parsed.value.1) == Some(s.vault[FontDir + font].data)
  {
    var font := s.settings[FontKey];
    var data := ConvertedCache(s);
    PluginCssRoundTrip(font, data);
  }

  /** After a conversion the cache holds the plugin's text for the font's bytes. */
  lemma ConvertedCache(s: PluginState) returns (data: seq<byte>)
    requires Activation(s).1 == Converted
    ensures FontKey in s.settings && FontDir + s.settings[FontKey] in s.vault
    ensures s.vault[FontDir + s.settings[FontKey]] == BinaryFile(data)
    ensures Activation(s).0.vault[CachePath] == TextFile(PluginCss(FontName(s.settings[FontKey]), Encode(data)))
  {
    data := s.vault[FontDir + s.settings[FontKey]].data;
  }

  // ---- The settings tab (display) ----

  /** One entry of the font dropdown. */
  datatype DropdownOption = DropdownOption(name: string, value: string)

  /** The entry that selects no font. */
  const NoneOption: DropdownOption := DropdownOption("none", "None")

  /** `display`: the `none` entry, then one entry per file of the fonts folder, in listing order. */
  method SettingsOptions(files: seq<string>) returns (options: seq<DropdownOption>)
    ensures |options| == |files| + 1
    ensures options[0] == NoneOption
    ensures forall i | 0 <= i < |files| :: options[i + 1] == DropdownOption(files[i], files[i])
  {
    options := [NoneOption];
    for i := 0 to |files|
      invariant |options| == i + 1
      invariant options[0] == NoneOption
      invariant forall k | 0 <= k < i :: options[k + 1] == DropdownOption(files[k], files[k])
    {
      options := options + [DropdownOption(files[i], files[i])];
    }
  }

  /** Whichever text of the `none` entry the dropdown reports, it selects no font. */
  lemma NoneOptionSelectsNoFont(settings: Settings)
    ensures IsNoneFont(settings[FontKey := NoneOption.name])
    ensures IsNoneFont(settings[FontKey := NoneOption.value])
  {
    var lower := ToLower(NoneOption.value);
    assert lower[0] == 'n' && lower[1] == 'o' && lower[2] == 'n' && lower[3] == 'e';
    LowerUnchanged(NoneOption.name);
  }

  /** The plugin's state. */
  class FontPlugin {
    var settings: Settings
    var vault: map<string, VaultFile>
    var head: seq<Style>
    var saved: Option<Settings>

    /** A plugin over a vault and a document head, before its settings are loaded. */
    constructor (vault: map<string, VaultFile>, head: seq<Style>)
      ensures this.settings == map[] && this.vault == vault && this.head == head && saved == None
    {
      this.settings := map[];
      this.vault := vault;
      this.head := head;
      this.saved := None;
    }

    function State(): PluginState
      reads this
    {
      PluginState(settings, vault, head, saved)
    }

    /** `loadSettings`, given what `loadData` returned. */
    method LoadSettings(loaded: Option<Settings>)
      modifies this
      ensures settings == MergeSettings(loaded)
      ensures vault == old(vault) && head == old(head) && saved == old(saved)
    {
      match loaded {
        case None => settings := DefaultSettings;
        case Some(data) => settings := DefaultSettings + data;
      }
    }

    /** `saveSettings`. */
    method SaveSettings()
      modifies this
      ensures saved == Some(settings)
      ensures settings == old(settings) && vault == old(vault) && head == old(head)
    {
      saved := Some(settings);
    }

    /** `applyCss`: append a new element, remove the old holder of the slot's id, give the new one the id. */
    method ApplyCss(css: string)
      modifies this
      ensures head == AfterApplyCss(old(head), css)
      ensures settings == old(settings) && vault == old(vault) && saved == old(saved)
    {
      ghost var before := head;
      head := head + [Style("", css)];
      var existing := FindById(head, SlotId);
      match existing {
        case Some(k) =>
          assert FindById(before, SlotId) == Some(k) by {
            FindPrefix(before, Style("", css), SlotId);
          }
          head := head[..k] + head[k + 1..];
          assert head == before[..k] + before[k + 1..] + [Style("", css)];
        case None =>
          assert FindById(before, SlotId) == None by {
            FindPrefix(before, Style("", css), SlotId);
          }
      }
      head := head[..|head| - 1] + [Style(SlotId, css)];
    }

    /** A step of `onload` after the settings are loaded: see `Activation`. */
    method Activate() returns (outcome: Outcome)
      modifies this
      ensures State() == Activation(old(State())).0
      ensures outcome == Activation(old(State())).1
    {
      if FontKey !in settings || settings[FontKey] == "" || ToLower(settings[FontKey]) == "none" {
        return Skipped;
      }
      var font := settings[FontKey];
      if ProcessedKey in settings && font == settings[ProcessedKey] && CachePath in vault {
        var cached := vault[CachePath];
        if !cached.TextFile? {
          return Failed;
        }
        ApplyCss(cached.text);
        return CacheApplied;
      }
      var file := FontDir + font;
      if file !in vault || !vault[file].BinaryFile? {
        return Failed;
      }
      var base64 := ArrayBufferToBase64(vault[file].data);
      var fontName := FontName(font);
      var cssString := PluginCss(fontName, base64);
      vault := vault[CachePath := TextFile(cssString)];
      settings := settings[ProcessedKey := font];
      SaveSettings();
      outcome := Converted;
    }

    /** `onload`, given what `loadData` returned: load the settings, then activate. */
    method Onload(loaded: Option<Settings>) returns (outcome: Outcome)
      modifies this
      ensures State() == Activation(old(State()).(settings := MergeSettings(loaded))).0
      ensures outcome == Activation(old(State()).(settings := MergeSettings(loaded))).1
    {
      LoadSettings(loaded);
      outcome := Activate();
    }

    /** The dropdown's `onChange`: record the chosen font and save. */
    method ChooseFont(value: string)
      modifies this
      ensures settings == old(settings)[FontKey := value] && saved == Some(settings)
      ensures vault == old(vault) && head == old(head)
    {
      settings := settings[FontKey := value];
      SaveSettings();
    }
  }

  /** Looking up an id after appending an element that does not hold it finds what the head alone gives. */
  lemma {:induction false} FindPrefix(head: seq<Style>, e: Style, id: string)
    requires e.id != id
    ensures FindById(head + [e], id) == FindById(head, id)
    decreases |head|
  {
    if head == [] {
      assert FindById([e][1..], id) == None;
    } else {
      assert (head + [e])[1..] == head[1..] + [e];
      FindPrefix(head[1..], e, id);
    }
  }
}
