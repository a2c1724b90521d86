# obsidian-custom-font, modelled in Dafny

This project models the two working parts of the obsidian-custom-font repository: the standalone web page that turns font files into CSS, and the Obsidian plugin that loads one font into the application.

- **Converter page** (`docs/font-converter.js`, module `ConverterPage`). The page keeps the files the user picked (class `FontConverter`, field `selectedFiles`). It keeps only `.woff`, `.ttf`, `.woff2` and `.otf` files. For each kept file it writes an `@font-face` rule: the family is the lower-cased name before the first dot, the MIME type comes from the lower-cased last extension, and the `src` holds the base64 bytes. After the rules comes one of three styling templates: `default`, `custom` or `force`. The whole text is trimmed. The page also derives the download file name.
- **Plugin** (`main.ts`, module `Plugin`). The plugin merges its saved settings over the defaults. For the chosen font it either applies the CSS it cached earlier or, on a miss, builds that CSS from the font file, writes it to the cache path and records the font as processed. The model holds the vault as a map from paths to files and the document head as a sequence of `(id, css)` style elements. Class `FontPlugin` holds that state. The pure `Activation` function states what one activation does.
- **Shared pieces.**
  - `Base64` is the encoding of section 4 of RFC 4648: an encoder, a strict decoder as its partner, the browser's `btoa`, and the `arrayBufferToBase64` loop. The loop is written out identically in both source files and is modelled once.
  - `JsString` holds the JavaScript string built-ins the code relies on:
    - `split` with `[0]` and `pop()`;
    - `join`;
    - `toLowerCase`;
    - `trim`, with ECMAScript's exact set of white-space and line-terminator characters;
    - `indexOf`;
    - `replace` with a string pattern, which replaces only the first occurrence.

I/O enters the model as parameters:
- the bytes a `FileReader` delivers;
- the radio value and the class-name field of the page;
- what `loadData` returns;
- the listing of the fonts folder.

Some behaviours of the code are proved as they are, on purpose:
- A file named just `woff`, with no dot, passes the filter (`BareExtensionAccepted`).
- The "more than one" template of `generateStylingCSS` is the `else` branch of `length === 1`, so it also covers zero files.
- In the plugin, `replace('.woff', '')` drops only the first `.woff`, so `x.woff2` becomes the family `x2` (`FontNameOfWoff`).
- The plugin's CSS always says `font/woff`.
- A cache miss writes the CSS but does not apply it; the next activation does (`OnlyHitApplies`, `Memoised`).

## Model

| member | source | states |
|---|---|---|
| Base64.ArrayBufferToBase64 | docs/font-converter.js:168-175 | the loop over the bytes and `btoa` return exactly the RFC 4648 base64 encoding of the bytes; the plugin's copy at main.ts:24-31 is the same loop, so both compute the same encoding |
| Base64.BtoaBinaryString | docs/font-converter.js:170-174 | `btoa` never throws on a string made of `String.fromCharCode` of bytes, and encodes exactly those bytes |
| Base64.DecodeEncode | docs/font-converter.js:168-175 | decoding the encoding of any bytes gives those bytes back |
| Base64.EncodeDecode | docs/font-converter.js:168-175 | any text the strict decoder accepts is the encoding of what it decodes to, so the encoding is canonical |
| Base64.EncodeLength | docs/font-converter.js:168-175 | the encoding of n bytes has 4·⌈n/3⌉ characters |
| Base64.EncodeLetters | docs/font-converter.js:168-175 | the encoding is alphabet letters followed by exactly (3 − n mod 3) mod 3 padding `=` |
| Base64.EncodeInjective | docs/font-converter.js:168-175 | different byte strings have different encodings |
| JsString.FirstPart | docs/font-converter.js:147 | `split('.')[0]`: the text before the first dot, or all of it when there is none |
| JsString.LastPart | docs/font-converter.js:148 | `split('.').pop()`: the text after the last dot, or all of it when there is none |
| JsString.SplitJoin | docs/font-converter.js:147-148 | splitting parts without the separator after joining them gives the parts back |
| JsString.TrimTrailing | docs/font-converter.js:123 | `trim` keeps text without white space at its ends, minus any trailing white space |
| JsString.TrimShape | docs/font-converter.js:123 | `trim` cuts the text into leading white space, the result, and trailing white space |
| JsString.TrimEnds | docs/font-converter.js:211 | the trimmed class name is empty or has no white space at either end |
| JsString.ReplaceFirstAt | main.ts:84 | `replace` with a string pattern changes only its first occurrence and keeps the text around it |
| ConverterPage.FamilyName | docs/font-converter.js:147 | the family is the lower-cased part of the name before its first dot, and holds no dot |
| ConverterPage.Extension | docs/font-converter.js:148 | the extension is the lower-cased part of the name after its last dot, and holds no dot |
| ConverterPage.MimeType | docs/font-converter.js:177-185 | `font/woff`, `font/truetype`, `font/woff2` or `font/opentype` for the four extensions, and `font` exactly when the extension is not one of them |
| ConverterPage.MimeTypeInjective | docs/font-converter.js:177-185 | different accepted extensions get different MIME types |
| ConverterPage.ValidNameHasMimeType | docs/font-converter.js:68-71 | a name passes the filter exactly when its extension has its own MIME type |
| ConverterPage.ValidFilesMembers | docs/font-converter.js:68-72 | a file is kept exactly when it was given and `'.'` plus its lower-cased extension is in the list |
| ConverterPage.ValidFilesConcat | docs/font-converter.js:69-72 | the filter distributes over concatenation, so it keeps the input order |
| ConverterPage.BareExtensionAccepted | docs/font-converter.js:70-71 | a file named `woff`, with no dot at all, passes the filter |
| ConverterPage.FontConverter.ProcessFiles | docs/font-converter.js:66-82 | reports whether a valid file was found, and selects exactly the valid files then, leaving the selection unchanged otherwise |
| ConverterPage.FontConverter.ConvertSingleFont | docs/font-converter.js:143-156 | the fragment is the `@font-face` text for the file's family, the MIME type of its extension and the base64 of its bytes |
| ConverterPage.FontFaceFragmentRoundTrip | docs/font-converter.js:147-155 | read back, a fragment gives the family, the MIME type and the payload, and the payload decodes to the file's bytes |
| ConverterPage.MyFontExample | docs/font-converter.js:147-155 | `MyFont.woff2` with bytes 0, 1, 2 gives the family `myfont` and `data:font/woff2;base64,AAEC` |
| ConverterPage.DefaultCSSIsRule | docs/font-converter.js:252-262 | the default template is a `:root` rule that assigns the quoted family to each of the seven font variables, in order |
| ConverterPage.CustomCSSIsRule | docs/font-converter.js:264-267 | the custom template is a rule for the class with the single declaration `font-family: '<family>' !important` |
| ConverterPage.DefaultStyling | docs/font-converter.js:188-208 | the default mode gives the family's `:root` rule for one file, and otherwise the comment, the list of families joined by `, ` and the rule for `'your-font-name'` |
| ConverterPage.CustomStyling | docs/font-converter.js:210-228 | the custom mode gives nothing for a blank class name, the forced family for one file, and otherwise the list of families and the placeholder rule for the trimmed class |
| ConverterPage.ForceStyling | docs/font-converter.js:230-246 | the force mode forces the family, or for several files the placeholder after the list of families, onto `*` |
| ConverterPage.UnknownStyling | docs/font-converter.js:249 | any other radio value gives no styling text |
| ConverterPage.StylingEnds | docs/font-converter.js:187-250 | styling text is empty or starts with a character other than white space and ends with `}` |
| ConverterPage.AccumulateIsJoin | docs/font-converter.js:108-112 | appending each fragment and a blank line in turn gives the fragments joined by blank lines, followed by one more |
| ConverterPage.CombinedIsJoin | docs/font-converter.js:108-112 | the accumulated text is the fragments, in selection order, joined by blank lines and followed by one more |
| ConverterPage.ConvertedOutput | docs/font-converter.js:108-123 | the shown text is the fragments joined by blank lines, then a blank line and the styling text when that is not empty |
| ConverterPage.FontConverter.ConvertFonts | docs/font-converter.js:98-123 | the loop builds the fragments followed by blank lines, adds the styling text only when it is not empty, and trims the whole |
| ConverterPage.FontConverter.AppendStyling | docs/font-converter.js:117-121 | appending only non-empty styling text gives the same text as appending it unconditionally |
| ConverterPage.FontConverter.DownloadFileName | docs/font-converter.js:285-287 | for one file, its name before the first dot in its own case plus `-font.css`; otherwise `custom-fonts.css` |
| Plugin.MergeSettings | main.ts:121-127 | every loaded property is kept, each missing property takes its default (`font` `None`, `processed_font` empty), and `null` gives the defaults |
| Plugin.MergeSaved | main.ts:121-131 | settings holding both properties load back unchanged after they are saved |
| Plugin.MergeNothing | main.ts:19-22 | with nothing saved, `font` is `None` and `processed_font` is empty |
| Plugin.DefaultIsNone | main.ts:60-63 | the default font counts as no font |
| Plugin.FindById | main.ts:44 | `getElementById`: the first element holding the id, or none when no element holds it |
| Plugin.RemoveFirstEffect | main.ts:44-47 | removing the first holder of the id drops one holder and keeps all other elements, in order |
| Plugin.FontPlugin.ApplyCss | main.ts:33-51 | append, removal of the previous holder and id assignment leave the head as `AfterApplyCss` describes |
| Plugin.ApplyCssEffect | main.ts:33-51 | afterwards the last element holds the slot id and exactly the CSS, the previous first holder is gone, and the other elements are unchanged and in order |
| Plugin.ApplyCssSlot | main.ts:33-51 | with at most one holder of the id before, exactly one holder is left after, and it is the new element |
| Plugin.FontNameOfWoff | main.ts:84 | the font name is the file name with its first `.woff` removed, so `x.woff` gives `x` and `x.woff2` gives `x2` |
| Plugin.ParsePluginCssText | main.ts:85-94 | the plugin's CSS can be read back into the font name and the payload |
| Plugin.PluginCssRoundTrip | main.ts:79-94 | the CSS a miss builds names the font, and its payload decodes to the font file's bytes |
| Plugin.NoneSkips | main.ts:60-63 | with no font, or `none` in any case, activation reads, writes and applies nothing, and leaves the settings as they were |
| Plugin.CacheHitApplies | main.ts:70-76 | on a cache hit the cached text is applied verbatim, and the settings, the vault and the saved data do not change |
| Plugin.CacheMissConverts | main.ts:77-97 | on a miss the vault becomes the old vault with the cache path set to the CSS of the font's bytes, and the settings become the old ones with `processed_font` set to the font; the settings are saved and no CSS is applied |
| Plugin.UnchangedUnlessDone | main.ts:59-102 | a skipped or failed activation changes nothing |
| Plugin.OnlyHitApplies | main.ts:70-97 | only the cache hit changes the document head |
| Plugin.Memoised | main.ts:70-97 | after a conversion, the next activation is a cache hit that applies the text the conversion wrote, with the same settings or with the saved ones loaded back |
| Plugin.ConvertedCssCarriesFont | main.ts:79-96 | after a conversion the cached text reads back as the font name and the encoding of the font file, which decodes to its bytes |
| Plugin.FontPlugin.Activate | main.ts:59-99 | the branches of `onload` change the plugin's state and report the outcome as `Activation` describes |
| Plugin.FontPlugin.Onload | main.ts:56-99 | first loads the merged settings, then activates |
| Plugin.FontPlugin.LoadSettings | main.ts:121-127 | the settings become the merge of the defaults and the loaded data, and nothing else changes |
| Plugin.FontPlugin.SaveSettings | main.ts:129-131 | the saved data becomes the current settings |
| Plugin.FontPlugin.ChooseFont | main.ts:164-167 | the chosen value becomes the font and the settings are saved |
| Plugin.SettingsOptions | main.ts:148-152 | the option list has one entry more than the folder listing: `none`/`None` first, then each file as both name and value, in listing order |
| Plugin.NoneOptionSelectsNoFont | main.ts:148-166 | choosing the `none` entry, by either of its texts, selects no font |

## Left out

- User interface of the page: event wiring, drag and drop, the spinner and button states, `scrollIntoView`, `displayFileInfo` with its floating-point sizes, and the error message `showMessage` shows for a blank class name. These are rendering only.
- `FileReader` and its promise: the model starts from the bytes the reader delivers. A failed read, which rejects, is not modelled.
- Clipboard, `Blob`/URL download mechanics, and the message timers of the page. These are browser services; the model keeps only the download file name.
- The Obsidian host: `Notice`, `console.log`, `addSettingTab`, the dropdown widget, `readdirSync` (the listing is a parameter), `registerDomEvent` and the debug `setInterval`.
- The `catch` in `onload`: a failed read ends the step as `Failed` with nothing changed. Failing writes or saves are not modelled.
- The plugin's `write` is not awaited. The model performs it at once, so it leaves out the race with a later read.
- Plugin.FindById: the lookup runs over the head only. Elements elsewhere in the document that hold the same id are not modelled.
- Plugin.IsNoneFont: settings values other than strings (JSON numbers, objects and the like) are not modelled. Settings are a map of strings.
- Plugin.Activation: a vault file is either text or binary. Reading a binary file as text, or a text file as binary, counts as a failed read instead of a conversion.
- ConverterPage.MimeType: the lookup in a JavaScript object also answers for inherited names such as `constructor`. The model gives `font` for them. Such names cannot reach the lookup, because the filter only passes the four extensions.
- JsString.ToLower: it lowers ASCII letters only. Full Unicode case mapping is left out. For the `none` test this is exact, since no other character lower-cases to `n`, `o` or `e`. For family names with non-ASCII capitals it differs from the browser.
- Plugin.PluginCssRoundTrip: holds only for font names without an apostrophe (`'`), and so does Plugin.ConvertedCssCarriesFont. The source puts the name into a single-quoted `font-family` string without escaping it. For a file such as `Grandma's.woff` that string ends early, and the CSS does not read back as the name.
- ConverterPage.FontConverter.ConvertFonts: it reads the selection once, for both the fragments and the styling. In the source the loop walks the array the field holds when the loop starts. `generateStylingCSS` reads the field again after the file reads have been awaited. A file pick or drop during a conversion replaces the selection through `processFiles`, so the styling may then list the new files. That race is not modelled.
- The comparison of a font with `none` uses JavaScript's `!=`. On the strings modelled here that is plain equality.
- version-bump.mjs: a build script that edits JSON files on disk; it is not part of this model.
