/**
 * The standalone converter page (docs/font-converter.js): it turns the font
 * files a user picks into one block of CSS text, an `@font-face` rule per
 * file whose `src` is a base64 `data:` URI, followed by one of three styling
 * templates. The page's class keeps the picked files in `selectedFiles`.
 */
module ConverterPage {
  import opened Wrappers
  import opened Base64
  import opened JsString

  /** A picked file: its name and the bytes the browser reads from it. */
  datatype FontFile = FontFile(name: string, bytes: seq<byte>)

  /** The extensions the page accepts, each with its leading dot. */
  const ValidExtensions: seq<string> := [".woff", ".ttf", ".woff2", ".otf"]

  /** The family name: the first dot-separated part of the file name, lower-cased. */
  function FamilyName(name: string): (family: string)
    ensures |family| <= |name| && family == ToLower(name[..|family|]) && '.' !in family
    ensures |family| < |name| ==> name[|family|] == '.'
  {
    ToLower(FirstPart(name, '.'))
  }

  /** The extension: the last dot-separated part of the file name, lower-cased. */
  function Extension(name: string): (ext: string)
    ensures |ext| <= |name| && ext == ToLower(name[|name| - |ext|..]) && '.' !in ext
    ensures |ext| < |name| ==> name[|name| - |ext| - 1] == '.'
  {
    ToLower(LastPart(name, '.'))
  }

  /** The test `processFiles` applies to each file name. */
  predicate IsValidFontName(name: string) {
    "." + Extension(name) in ValidExtensions
  }

  /** `getFontMimeType`: the fixed extension table, with `font` for anything else. */
  function MimeType(ext: string): (mime: string)
    ensures (mime == "font") <==> ("." + ext !in ValidExtensions)
  {
    match ext
    case "woff" => assert "." + ext == ValidExtensions[0]; "font/woff"
    case "ttf" => assert "." + ext == ValidExtensions[1]; "font/truetype"
    case "woff2" => assert "." + ext == ValidExtensions[2]; "font/woff2"
    case "otf" => assert "." + ext == ValidExtensions[3]; "font/opentype"
    case _ =>
      assert forall k | 0 <= k < |ValidExtensions| :: ValidExtensions[k][1..] != ext;
      assert ("." + ext)[1..] == ext;
      "font"
  }

  /** Every kept file is one whose extension has its own MIME type. */
  lemma ValidNameHasMimeType(name: string)
    ensures IsValidFontName(name) <==> MimeType(Extension(name)) != "font"
  {
  }

  /** Distinct accepted extensions get distinct MIME types. */
  lemma MimeTypeInjective(e1: string, e2: string)
    requires "." + e1 in ValidExtensions && "." + e2 in ValidExtensions
    requires MimeType(e1) == MimeType(e2)
    ensures e1 == e2
  {
  }

  /** A name with no dot is its own last part, so a file named just `woff` passes the filter. */
  lemma BareExtensionAccepted()
    ensures IsValidFontName("woff") && FamilyName("woff") == "woff"
  {
    LastPartUnique(LastPart("woff", '.'), "woff", "woff", '.');
    FirstPartUnique(FirstPart("woff", '.'), "woff", "woff", '.');
    LowerUnchanged("woff");
    assert "." + "woff" == ValidExtensions[0];
  }

  /** The `filter` in `processFiles`: the files with a valid extension, in input order. */
  function ValidFiles(files: seq<FontFile>): (kept: seq<FontFile>)
    ensures |kept| <= |files|
    decreases |files|
  {
    if files == [] then []
    else (if IsValidFontName(files[0].name) then [files[0]] else []) + ValidFiles(files[1..])
  }

  /** A file is kept exactly when it is one of the given files and its name passes the test. */
  lemma {:induction false} ValidFilesMembers(files: seq<FontFile>, f: FontFile)
    ensures f in ValidFiles(files) <==> f in files && IsValidFontName(f.name)
    decreases |files|
  {
    if files != [] {
      var head := if IsValidFontName(files[0].name) then [files[0]] else [];
      var rest := ValidFiles(files[1..]);
      assert ValidFiles(files) == head + rest;
      ValidFilesMembers(files[1..], f);
      InConcat(f, head, rest);
      InCons(f, files);
    }
  }

  lemma InConcat(f: FontFile, x: seq<FontFile>, y: seq<FontFile>)
    ensures f in x + y <==> f in x || f in y
  {
  }

  lemma InCons(f: FontFile, files: seq<FontFile>)
    requires files != []
    ensures f in files <==> f == files[0] || f in files[1..]
  {
    assert files == [files[0]] + files[1..];
  }

  lemma ValidFilesCons(f: FontFile, rest: seq<FontFile>)
    ensures ValidFiles([f] + rest) == (if IsValidFontName(f.name) then [f] else []) + ValidFiles(rest)
  {
    assert ([f] + rest)[0] == f && ([f] + rest)[1..] == rest;
  }

  lemma FilesAssoc(x: seq<FontFile>, y: seq<FontFile>, z: seq<FontFile>)
    ensures x + (y + z) == (x + y) + z
  {
  }

  lemma EmptyLeft(x: seq<FontFile>, y: seq<FontFile>)
    requires x == []
    ensures x + y == y
  {
  }

  /** Filtering keeps the input order: it distributes over concatenation. */
  lemma {:induction false} ValidFilesConcat(a: seq<FontFile>, b: seq<FontFile>)
    ensures ValidFiles(a + b) == ValidFiles(a) + ValidFiles(b)
    decreases |a|
  {
    if a != [] {
      var f, tail := a[0], a[1..];
      var head := if IsValidFontName(f.name) then [f] else [];
      assert a == [f] + tail;
      assert a + b == [f] + (tail + b);
      ValidFilesCons(f, tail + b);
      ValidFilesCons(f, tail);
      ValidFilesConcat(tail, b);
      FilesAssoc(head, ValidFiles(tail), ValidFiles(b));
    } else {
      EmptyLeft(a, b);
      EmptyLeft(ValidFiles(a), ValidFiles(b));
    }
  }

  // The text of one `@font-face` fragment, around the three values it carries.
  const FaceOpen: string := "@font-face {\n    font-family: '"
  const FaceMiddle: string := "';\n    src: url(data:"
  const FaceBase64: string := ";base64,"
  const FaceClose: string := ");\n}"

  /** The fragment text `convertSingleFont` produces for a family, a MIME type and a base64 payload. */
  function FontFaceText(family: string, mime: string, payload: string): string {
    FaceOpen + family + FaceMiddle + mime + FaceBase64 + payload + FaceClose
  }

  /** `convertSingleFont`: the fragment for one file. */
  function FontFaceFragment(file: FontFile): string {
    FontFaceText(FamilyName(file.name), MimeType(Extension(file.name)), Encode(file.bytes))
  }

  /** What a fragment carries. */
  datatype FontFace = FontFace(family: string, mime: string, payload: string)

  predicate IsPayloadChar(c: char) {
    IsAlphabetChar(c) || c == Pad
  }

  predicate IsMimeChar(c: char) {
    ('a' <= c <= 'z') || ('0' <= c <= '9') || c == '/'
  }

  /** `s` cut before its longest suffix of characters satisfying `p`. */
  function SplitTrailing(s: string, p: char -> bool): (parts: (string, string))
    ensures parts.0 + parts.1 == s
    decreases |s|
  {
    if |s| > 0 && p(s[|s| - 1]) then
      var (front, back) := SplitTrailing(s[..|s| - 1], p);
      (front, back + [s[|s| - 1]])
    else (s, "")
  }

  lemma {:induction false} SplitTrailingOf(a: string, b: string, p: char -> bool)
    requires forall i | 0 <= i < |b| :: p(b[i])
    requires a == [] || !p(a[|a| - 1])
    ensures SplitTrailing(a + b, p) == (a, b)
    decreases |b|
  {
    if |b| > 0 {
      var b' := b[..|b| - 1];
      assert (a + b)[..|a + b| - 1] == a + b';
      SplitTrailingOf(a, b', p);
      assert b' + [b[|b| - 1]] == b;
    } else {
      assert a + b == a;
    }
  }

  /**
   * Reads a fragment back from its end: the payload is the run of base64
   * letters before the closing text, the MIME type the run of MIME characters
   * before `;base64,`, and the family what lies between the fixed texts.
   */
  function ParseFontFace(css: string): Option<FontFace> {
    if !EndsWith(css, FaceClose) then None
    else
      var (rest, payload) := SplitTrailing(css[..|css| - |FaceClose|], IsPayloadChar);
      if !EndsWith(rest, FaceBase64) then None
      else
        var (rest2, mime) := SplitTrailing(rest[..|rest| - |FaceBase64|], IsMimeChar);
        if !EndsWith(rest2, FaceMiddle) then None
        else
          var rest3 := rest2[..|rest2| - |FaceMiddle|];
          if !StartsWith(rest3, FaceOpen) then None
          else Some(FontFace(rest3[|FaceOpen|..], mime, payload))
  }

  lemma ParseFontFaceText(family: string, mime: string, payload: string)
    requires forall i | 0 <= i < |mime| :: IsMimeChar(mime[i])
    requires forall i | 0 <= i < |payload| :: IsPayloadChar(payload[i])
    ensures ParseFontFace(FontFaceText(family, mime, payload)) == Some(FontFace(family, mime, payload))
  {
    var a2 := FaceOpen + family + FaceMiddle;
    var a1 := a2 + mime + FaceBase64;
    var css := a1 + payload + FaceClose;
    assert css == FontFaceText(family, mime, payload);
    assert css[..|css| - |FaceClose|] == a1 + payload;
    SplitTrailingOf(a1, payload, IsPayloadChar);
    assert a1[..|a1| - |FaceBase64|] == a2 + mime;
    SplitTrailingOf(a2, mime, IsMimeChar);
    assert a2[..|a2| - |FaceMiddle|] == FaceOpen + family;
    assert (FaceOpen + family)[|FaceOpen|..] == family;
  }

  lemma MimeTypeChars(ext: string)
    ensures var m := MimeType(ext); forall i | 0 <= i < |m| :: IsMimeChar(m[i])
  {
  }

  /**
   * A fragment names the file's family and MIME type and carries its bytes:
   * reading the fragment back and decoding the payload gives the file's bytes.
   */
  lemma FontFaceFragmentRoundTrip(file: FontFile)
    ensures ParseFontFace(FontFaceFragment(file))
      == Some(FontFace(FamilyName(file.name), MimeType(Extension(file.name)), Encode(file.bytes)))
    ensures Decode(ParseFontFace(FontFaceFragment(file)).value.payload) == Some(file.bytes)
  {
    var b64 := Encode(file.bytes);
    MimeTypeChars(Extension(file.name));
    EncodeLetters(file.bytes);
    forall i | 0 <= i < |b64| ensures IsPayloadChar(b64[i]) {
      LetterAt(file.bytes, i);
    }
    ParseFontFaceText(FamilyName(file.name), MimeType(Extension(file.name)), b64);
    DecodeEncode(file.bytes);
  }

  // ---- Styling templates (generateStylingCSS, getDefaultCSS, getCustomCSS) ----

  /** The family names of the picked files, in order (the `map` in `generateStylingCSS`). */
  function Families(files: seq<FontFile>): (families: seq<string>)
    ensures |families| == |files|
  {
    seq(|files|, i requires 0 <= i < |files| => FamilyName(files[i].name))
  }

  const Placeholder: string := "your-font-name"

  function Quoted(family: string): string {
    "'" + family + "'"
  }

  /** One indented declaration line of the templates. */
  function Line(property: string, value: string): string {
    "    " + property + ": " + value + ";\n"
  }

  /** `getDefaultCSS`: a `:root` block that sets every font variable of the application to the family. */
  function DefaultCSS(family: string): string {
    ":root {\n"
    + Line("--font-default", Quoted(family))
    + Line("--default-font", Quoted(family))
    + Line("--font-family-editor", Quoted(family))
    + Line("--font-monospace-default", Quoted(family))
    + Line("--font-interface-override", Quoted(family))
    + Line("--font-text-override", Quoted(family))
    + Line("--font-monospace-override", Quoted(family))
    + "}"
  }

  /** `getCustomCSS`: the family forced onto one selector. */
  function CustomCSS(family: string, cssClass: string): string {
    cssClass + " {\n" + Line("font-family", Quoted(family) + " !important") + "}"
  }

  /** The comment line of the multi-font templates that lists the families. */
  function ReplaceHint(families: seq<string>): string {
    "/* Replace 'your-font-name' with one of: " + Join(families, ", ") + " */\n"
  }

  // The multi-font branches of `generateStylingCSS` spell out their templates
  // inline; the text of each is that of `getDefaultCSS` or `getCustomCSS` for
  // the placeholder family, which is how they are written here.

  /** The `default` branch of `generateStylingCSS`. */
  function DefaultMode(families: seq<string>): string {
    if |families| == 1 then DefaultCSS(families[0])
    else "/* Default Obsidian CSS Variables */\n" + ReplaceHint(families) + DefaultCSS(Placeholder)
  }

  /** The `custom` branch of `generateStylingCSS`, once the class name is known not to be blank. */
  function CustomMode(families: seq<string>, customClassName: string): string {
    if |families| == 1 then CustomCSS(families[0], customClassName)
    else "/* Custom CSS Class */\n" + ReplaceHint(families) + CustomCSS(Placeholder, customClassName)
  }

  /** The `force` branch of `generateStylingCSS`: the family, or the placeholder, forced onto `*`. */
  function ForceMode(families: seq<string>): string {
    if |families| == 1 then "/* Force style for all elements */\n" + CustomCSS(families[0], "*")
    else "/* Force style for all elements */\n" + ReplaceHint(families) + CustomCSS(Placeholder, "*")
  }

  /**
   * `generateStylingCSS`: `cssType` is the checked radio button's value and
   * `classInput` the raw text of the custom class name field.
   */
  function StylingCSS(cssType: string, files: seq<FontFile>, classInput: string): string {
    var families := Families(files);
    if cssType == "default" then DefaultMode(families)
    else if cssType == "custom" then
      var customClassName := Trim(classInput);
      if customClassName == "" then "" else CustomMode(families, customClassName)
    else if cssType == "force" then ForceMode(families)
    else ""
  }

  // ---- A structured view of the generated rules ----

  datatype Declaration = Declaration(property: string, value: string)

  function RenderDeclarations(ds: seq<Declaration>): string
    decreases |ds|
  {
    if ds == [] then ""
    else Line(ds[0].property, ds[0].value) + RenderDeclarations(ds[1..])
  }

  /** A CSS rule as the templates lay it out: one declaration per indented line. */
  function RenderRule(selector: string, ds: seq<Declaration>): string {
    selector + " {\n" + RenderDeclarations(ds) + "}"
  }

  /** The font variables of the application that the default template sets. */
  const ThemeVariables: seq<string> := [
    "--font-default", "--default-font", "--font-family-editor", "--font-monospace-default",
    "--font-interface-override", "--font-text-override", "--font-monospace-override"]

  /** The same value assigned to each of `properties`, in order. */
  function AssignAll(properties: seq<string>, value: string): (ds: seq<Declaration>)
    ensures |ds| == |properties|
    ensures forall i | 0 <= i < |ds| :: ds[i] == Declaration(properties[i], value)
  {
    seq(|properties|, i requires 0 <= i < |properties| => Declaration(properties[i], value))
  }

  /** The one declaration of the custom and force templates. */
  function ImportantFamily(family: string): Declaration {
    Declaration("font-family", Quoted(family) + " !important")
  }

  /** Concatenation regrouped: a prefix, seven lines, a suffix. */
  lemma RegroupSeven(a: string, l0: string, l1: string, l2: string, l3: string, l4: string, l5: string, l6: string, z: string)
    ensures a + l0 + l1 + l2 + l3 + l4 + l5 + l6 + z == a + (l0 + (l1 + (l2 + (l3 + (l4 + (l5 + (l6 + "")))))))+ z
  {
    assert l6 + "" == l6;
  }

  /** The default template is a `:root` rule assigning the quoted family to every theme variable. */
  lemma DefaultCSSIsRule(family: string)
    ensures DefaultCSS(family) == RenderRule(":root", AssignAll(ThemeVariables, Quoted(family)))
  {
    var q := Quoted(family);
    var ds := AssignAll(ThemeVariables, q);
    var vs := ThemeVariables;
    var l0, l1, l2, l3, l4, l5, l6 :=
      Line(vs[0], q), Line(vs[1], q), Line(vs[2], q), Line(vs[3], q), Line(vs[4], q), Line(vs[5], q), Line(vs[6], q);
    assert RenderDeclarations(ds[6..]) == l6 + "" by { assert ds[6..][1..] == []; }
    assert RenderDeclarations(ds[5..]) == l5 + (l6 + "") by { assert ds[5..][1..] == ds[6..]; }
    assert RenderDeclarations(ds[4..]) == l4 + (l5 + (l6 + "")) by { assert ds[4..][1..] == ds[5..]; }
    assert RenderDeclarations(ds[3..]) == l3 + (l4 + (l5 + (l6 + ""))) by { assert ds[3..][1..] == ds[4..]; }
    assert RenderDeclarations(ds[2..]) == l2 + (l3 + (l4 + (l5 + (l6 + "")))) by { assert ds[2..][1..] == ds[3..]; }
    assert RenderDeclarations(ds[1..]) == l1 + (l2 + (l3 + (l4 + (l5 + (l6 + ""))))) by { assert ds[1..][1..] == ds[2..]; }
    assert RenderDeclarations(ds) == l0 + (l1 + (l2 + (l3 + (l4 + (l5 + (l6 + "")))))) by { assert ds[0..] == ds; }
    assert ":root" + " {\n" == ":root {\n";
    RegroupSeven(":root {\n", l0, l1, l2, l3, l4, l5, l6, "}");
  }

  /** The custom template is a rule for the class with the one important font-family declaration. */
  lemma CustomCSSIsRule(family: string, cssClass: string)
    ensures CustomCSS(family, cssClass) == RenderRule(cssClass, [ImportantFamily(family)])
  {
    var d := ImportantFamily(family);
    assert [d][1..] == [];
    assert RenderDeclarations([d]) == Line(d.property, d.value) + "";
  }

  lemma DefaultModeRule(families: seq<string>)
    ensures |families| == 1 ==> DefaultMode(families) == RenderRule(":root", AssignAll(ThemeVariables, Quoted(families[0])))
    ensures |families| != 1 ==> DefaultMode(families) == "/* Default Obsidian CSS Variables */\n" + ReplaceHint(families)
                                 + RenderRule(":root", AssignAll(ThemeVariables, Quoted(Placeholder)))
  {
    if |families| == 1 {
      DefaultCSSIsRule(families[0]);
    } else {
      DefaultCSSIsRule(Placeholder);
    }
  }

  lemma CustomModeRule(families: seq<string>, cls: string)
    ensures |families| == 1 ==> CustomMode(families, cls) == RenderRule(cls, [ImportantFamily(families[0])])
    ensures |families| != 1 ==>
      CustomMode(families, cls) == "/* Custom CSS Class */\n" + ReplaceHint(families) + RenderRule(cls, [ImportantFamily(Placeholder)])
  {
    if |families| == 1 {
      CustomCSSIsRule(families[0], cls);
    } else {
      CustomCSSIsRule(Placeholder, cls);
    }
  }

  lemma ForceModeRule(families: seq<string>)
    ensures |families| == 1 ==> ForceMode(families) == "/* Force style for all elements */\n" + RenderRule("*", [ImportantFamily(families[0])])
    ensures |families| != 1 ==>
      ForceMode(families) == "/* Force style for all elements */\n" + ReplaceHint(families) + RenderRule("*", [ImportantFamily(Placeholder)])
  {
    if |families| == 1 {
      CustomCSSIsRule(families[0], "*");
    } else {
      CustomCSSIsRule(Placeholder, "*");
    }
  }

  /**
   * The default mode: for one file the family's `:root` rule; for any other
   * number of files a comment listing the families and the same rule for the
   * placeholder `'your-font-name'`.
   */
  lemma DefaultStyling(files: seq<FontFile>, classInput: string)
    ensures var r, families := StylingCSS("default", files, classInput), Families(files);
      && (|files| == 1 ==> r == RenderRule(":root", AssignAll(ThemeVariables, Quoted(families[0]))))
      && (|files| != 1 ==> r == "/* Default Obsidian CSS Variables */\n" + ReplaceHint(families)
                                + RenderRule(":root", AssignAll(ThemeVariables, Quoted(Placeholder))))
  {
    DefaultModeRule(Families(files));
  }

  /**
   * The custom mode: nothing when the trimmed class name is blank; otherwise
   * for one file the family forced onto the class and for any other number a
   * comment listing the families and the rule for the placeholder.
   */
  lemma CustomStyling(files: seq<FontFile>, classInput: string)
    ensures var r, families, cls := StylingCSS("custom", files, classInput), Families(files), Trim(classInput);
      && (cls == "" ==> r == "")
      && (cls != "" && |files| == 1 ==> r == RenderRule(cls, [ImportantFamily(families[0])]))
      && (cls != "" && |files| != 1 ==>
            r == "/* Custom CSS Class */\n" + ReplaceHint(families) + RenderRule(cls, [ImportantFamily(Placeholder)]))
  {
    CustomModeRule(Families(files), Trim(classInput));
  }

  /** The force mode: the family, or the placeholder after the list of families, forced onto `*`. */
  lemma ForceStyling(files: seq<FontFile>, classInput: string)
    ensures var r, families := StylingCSS("force", files, classInput), Families(files);
      && (|files| == 1 ==> r == "/* Force style for all elements */\n" + RenderRule("*", [ImportantFamily(families[0])]))
      && (|files| != 1 ==>
            r == "/* Force style for all elements */\n" + ReplaceHint(families) + RenderRule("*", [ImportantFamily(Placeholder)]))
  {
    ForceModeRule(Families(files));
  }

  /** Any other radio value yields no styling text. */
  lemma UnknownStyling(cssType: string, files: seq<FontFile>, classInput: string)
    requires cssType != "default" && cssType != "custom" && cssType != "force"
    ensures StylingCSS(cssType, files, classInput) == ""
  {
  }

  // ---- Combining the fragments (convertFonts) ----

  /** The accumulation in `convertFonts`: each fragment followed by a blank line, in order. */
  function Accumulate(fragments: seq<string>): string
    decreases |fragments|
  {
    if fragments == [] then ""
    else Accumulate(fragments[..|fragments| - 1]) + fragments[|fragments| - 1] + "\n\n"
  }

  /** `f` applied to each file, in order. */
  function MapFiles(files: seq<FontFile>, f: FontFile -> string): (r: seq<string>)
    ensures |r| == |files| && forall i | 0 <= i < |files| :: r[i] == f(files[i])
  {
    seq(|files|, i requires 0 <= i < |files| => f(files[i]))
  }

  lemma MapFilesSnoc(files: seq<FontFile>, f: FontFile -> string, i: nat)
    requires i < |files|
    ensures MapFiles(files[..i + 1], f) == MapFiles(files[..i], f) + [f(files[i])]
  {
    var x, y := MapFiles(files[..i + 1], f), MapFiles(files[..i], f) + [f(files[i])];
    forall k | 0 <= k < |x| ensures x[k] == y[k] {
      if k < i {
        assert files[..i + 1][k] == files[..i][k];
      }
    }
  }

  /** One fragment per file, in order. */
  function Fragments(files: seq<FontFile>): (fragments: seq<string>)
    ensures |fragments| == |files|
  {
    MapFiles(files, FontFaceFragment)
  }

  /** The text `convertFonts` builds from the selected files before the styling text. */
  function CombinedCSS(files: seq<FontFile>): string {
    Accumulate(Fragments(files))
  }

  /** The fragments of one more file are those before it and its own. */
  lemma FragmentsSnoc(files: seq<FontFile>, i: nat)
    requires i < |files|
    ensures Fragments(files[..i + 1]) == Fragments(files[..i]) + [FontFaceFragment(files[i])]
  {
    MapFilesSnoc(files, FontFaceFragment, i);
  }

  /** One more fragment adds that fragment and a blank line. */
  lemma AccumulateSnoc(fragments: seq<string>, f: string)
    ensures Accumulate(fragments + [f]) == Accumulate(fragments) + f + "\n\n"
  {
    assert (fragments + [f])[..|fragments|] == fragments;
  }

  /** The accumulated text is the fragments joined by blank lines, with one more blank line at the end. */
  lemma {:induction false} AccumulateIsJoin(fragments: seq<string>)
    requires fragments != []
    ensures Accumulate(fragments) == Join(fragments, "\n\n") + "\n\n"
    decreases |fragments|
  {
    var n := |fragments|;
    var init := fragments[..n - 1];
    if n == 1 {
      assert init == [];
    } else {
      AccumulateIsJoin(init);
      JoinLast(fragments, "\n\n");
    }
  }

  /** The same for the selected files: their fragments in selection order, joined by blank lines, and one more. */
  lemma CombinedIsJoin(files: seq<FontFile>)
    requires files != []
    ensures CombinedCSS(files) == Join(Fragments(files), "\n\n") + "\n\n"
  {
    AccumulateIsJoin(Fragments(files));
  }

  /** A fragment opens with `@` and closes with `}`. */
  lemma FragmentEnds(file: FontFile)
    ensures var f := FontFaceFragment(file); |f| > 0 && f[0] == '@' && f[|f| - 1] == '}'
  {
    FontFaceTextEnds(FamilyName(file.name), MimeType(Extension(file.name)), Encode(file.bytes));
  }

  lemma FontFaceTextEnds(family: string, mime: string, payload: string)
    ensures var f := FontFaceText(family, mime, payload); |f| > 0 && f[0] == '@' && f[|f| - 1] == '}'
  {
    var f := FontFaceText(family, mime, payload);
    var body := family + FaceMiddle + mime + FaceBase64 + payload;
    assert f == FaceOpen + body + FaceClose;
    FirstAndLast(FaceOpen, body, FaceClose);
  }

  /** Text between a non-empty opening and a non-empty closing starts and ends as they do. */
  lemma FirstAndLast(a: string, b: string, c: string)
    requires a != "" && c != ""
    ensures var s := a + b + c; |s| > 0 && s[0] == a[0] && s[|s| - 1] == c[|c| - 1]
  {
  }

  /** Joined parts that are not empty start as the first part and end as the last. */
  lemma {:induction false} JoinEnds(parts: seq<string>, sep: string)
    requires parts != [] && forall i | 0 <= i < |parts| :: parts[i] != ""
    ensures var j := Join(parts, sep);
      |j| > 0 && j[0] == parts[0][0] && j[|j| - 1] == parts[|parts| - 1][|parts[|parts| - 1]| - 1]
  {
    if |parts| > 1 {
      JoinLast(parts, sep);
    }
  }

  /** A rule after a non-empty head, or with a non-empty selector, starts as they do and ends with `}`. */
  lemma RuleEnds(head: string, selector: string, ds: seq<Declaration>)
    requires head + selector != ""
    ensures var s := head + RenderRule(selector, ds); |s| > 0 && s[0] == (head + selector)[0] && s[|s| - 1] == '}'
  {
    assert head + RenderRule(selector, ds) == (head + selector) + (" {\n" + RenderDeclarations(ds) + "}");
  }

  /** A text that starts with a given character keeps it first when more text follows. */
  lemma FirstOfConcat(a: string, b: string)
    requires a != ""
    ensures (a + b)[0] == a[0]
  {
  }

  /** Text that starts with a visible character and ends with the closing brace of a rule. */
  predicate EndsAsRule(s: string) {
    |s| > 0 && !IsWhiteSpace(s[0]) && s[|s| - 1] == '}'
  }

  /** A rendered rule after a head starts as the head, or the selector when the head is empty, and ends with `}`. */
  lemma RuleTextEnds(s: string, head: string, selector: string, ds: seq<Declaration>)
    requires s == head + RenderRule(selector, ds)
    requires head + selector != "" && !IsWhiteSpace((head + selector)[0])
    ensures EndsAsRule(s)
  {
    RuleEnds(head, selector, ds);
  }

  /** The one-font default template ends as a rule does. */
  lemma DefaultCSSEnds(family: string)
    ensures EndsAsRule(DefaultCSS(family))
  {
    DefaultCSSIsRule(family);
    RuleEnds("", ":root", AssignAll(ThemeVariables, Quoted(family)));
    assert "" + RenderRule(":root", AssignAll(ThemeVariables, Quoted(family))) == RenderRule(":root", AssignAll(ThemeVariables, Quoted(family)));
  }

  lemma DefaultModeEnds(families: seq<string>)
    ensures EndsAsRule(DefaultMode(families))
  {
    if |families| == 1 {
      DefaultCSSEnds(families[0]);
    } else {
      DefaultCSSIsRule(Placeholder);
      HintedRuleEnds("/* Default Obsidian CSS Variables */\n", families, ":root", AssignAll(ThemeVariables, Quoted(Placeholder)));
    }
  }

  /** A comment and the list of families before a rule: the text ends as the rule does. */
  lemma HintedRuleEnds(comment: string, families: seq<string>, selector: string, ds: seq<Declaration>)
    requires comment != "" && !IsWhiteSpace(comment[0])
    ensures EndsAsRule(comment + ReplaceHint(families) + RenderRule(selector, ds))
  {
    var head := comment + ReplaceHint(families);
    FirstOfConcat(comment, ReplaceHint(families));
    FirstOfConcat(head, selector);
    RuleTextEnds(head + RenderRule(selector, ds), head, selector, ds);
  }

  lemma CustomModeEnds(families: seq<string>, cls: string)
    requires cls != "" && !IsWhiteSpace(cls[0])
    ensures EndsAsRule(CustomMode(families, cls))
  {
    CustomModeRule(families, cls);
    if |families| == 1 {
      assert "" + cls == cls;
      RuleTextEnds(CustomMode(families, cls), "", cls, [ImportantFamily(families[0])]);
    } else {
      HintedRuleEnds("/* Custom CSS Class */\n", families, cls, [ImportantFamily(Placeholder)]);
    }
  }

  lemma ForceModeEnds(families: seq<string>)
    ensures EndsAsRule(ForceMode(families))
  {
    ForceModeRule(families);
    var comment := "/* Force style for all elements */\n";
    if |families| == 1 {
      FirstOfConcat(comment, "*");
      RuleTextEnds(ForceMode(families), comment, "*", [ImportantFamily(families[0])]);
    } else {
      HintedRuleEnds(comment, families, "*", [ImportantFamily(Placeholder)]);
    }
  }

  /** Styling text is empty, or starts with a character other than white space and ends with `}`. */
  lemma StylingEnds(cssType: string, files: seq<FontFile>, classInput: string)
    ensures var s := StylingCSS(cssType, files, classInput);
      s == "" || EndsAsRule(s)
  {
    var families := Families(files);
    if cssType == "default" {
      DefaultModeEnds(families);
    } else if cssType == "custom" {
      TrimEnds(classInput);
      if Trim(classInput) != "" {
        CustomModeEnds(families, Trim(classInput));
      }
    } else if cssType == "force" {
      ForceModeEnds(families);
    }
  }

  /** The fragments joined by blank lines start with `@` and end with `}`. */
  lemma JoinedFragmentsEnds(files: seq<FontFile>)
    requires files != []
    ensures var j := Join(Fragments(files), "\n\n"); |j| > 0 && j[0] == '@' && j[|j| - 1] == '}'
  {
    var fragments := Fragments(files);
    forall i | 0 <= i < |fragments| ensures fragments[i] != "" && fragments[i][0] == '@' && fragments[i][|fragments[i]| - 1] == '}' {
      FragmentEnds(files[i]);
    }
    JoinEnds(fragments, "\n\n");
  }

  /**
   * What `trim` leaves of joined text, a blank line and styling text of the
   * shape the templates produce: the joined text, then a blank line and the
   * styling text when it is not empty.
   */
  lemma {:induction false} TrimmedText(c: string, j: string, s: string)
    requires c == j + "\n\n"
    requires j != [] && !IsWhiteSpace(j[0]) && !IsWhiteSpace(j[|j| - 1])
    requires s == "" || EndsAsRule(s)
    ensures Trim(c + s) == j + (if s == "" then "" else "\n\n" + s)
  {
    if s == "" {
      assert c + s == j + "\n\n";
      TrimTrailing(j, "\n\n");
      assert j + "" == j;
    } else {
      var t := j + ("\n\n" + s);
      assert c + s == t;
      assert t[0] == j[0] && t[|t| - 1] == s[|s| - 1];
      TrimTrailing(t, "");
      assert t + "" == t;
    }
  }

  /**
   * The text `convertFonts` shows, for at least one selected file: the
   * fragments separated by blank lines and, when the styling text is not
   * empty, a blank line and the styling text; `trim` removes only the last
   * blank line.
   */
  lemma ConvertedOutput(files: seq<FontFile>, cssType: string, classInput: string)
    requires files != []
    ensures var s := StylingCSS(cssType, files, classInput);
      Trim(CombinedCSS(files) + s) == Join(Fragments(files), "\n\n") + (if s == "" then "" else "\n\n" + s)
  {
    CombinedIsJoin(files);
    JoinedFragmentsEnds(files);
    StylingEnds(cssType, files, classInput);
    TrimmedText(CombinedCSS(files), Join(Fragments(files), "\n\n"), StylingCSS(cssType, files, classInput));
  }

  lemma MyFontFamily()
    ensures FamilyName("MyFont.woff2") == "myfont"
  {
    assert "MyFont.woff2" == "MyFont" + ['.'] + "woff2";
    FirstPartBefore("MyFont", "woff2", '.');
    LowerOfMyFont();
  }

  lemma LowerOfMyFont()
    ensures ToLower("MyFont") == "myfont"
  {
    var lower := ToLower("MyFont");
    assert lower[0] == 'm' && lower[1] == 'y' && lower[2] == 'f' && lower[3] == 'o' && lower[4] == 'n' && lower[5] == 't';
  }

  lemma MyFontExtension()
    ensures Extension("MyFont.woff2") == "woff2"
  {
    assert "MyFont.woff2" == "MyFont" + ['.'] + "woff2";
    LastPartAfter("MyFont", "woff2", '.');
    LowerUnchanged("woff2");
  }

  lemma ZeroOneTwo()
    ensures Encode([0, 1, 2]) == "AAEC"
  {
    EncodeThree([0, 1, 2]);
    GroupZeroOneTwo();
  }

  lemma GroupZeroOneTwo()
    ensures EncodeGroup(0, 1, 2) == "AAEC"
  {
    assert CharOf(0) == 'A' && CharOf(4) == 'E' && CharOf(2) == 'C';
  }

  /**
   * The worked example: `MyFont.woff2` holding the bytes 0, 1, 2 gives the
   * family `myfont` and the URI `data:font/woff2;base64,AAEC`.
   */
  lemma MyFontExample()
    ensures FontFaceFragment(FontFile("MyFont.woff2", [0, 1, 2])) == FontFaceText("myfont", "font/woff2", "AAEC")
  {
    MyFontFamily();
    MyFontExtension();
    ZeroOneTwo();
  }

  lemma AppendNothing(s: string, t: string)
    ensures t == "" ==> s + t == s
  {
  }

  // ---- The page's state ----

  /** The converter page: the files of the last accepted pick. */
  class FontConverter {
    var selectedFiles: seq<FontFile>

    constructor ()
      ensures selectedFiles == []
    {
      selectedFiles := [];
    }

    /**
     * `processFiles`: keeps the files with a valid extension; when none is
     * left the page reports an error and the selection stays as it was.
     */
    method ProcessFiles(files: seq<FontFile>) returns (accepted: bool)
      modifies this
      ensures accepted == (ValidFiles(files) != [])
      ensures selectedFiles == if accepted then ValidFiles(files) else old(selectedFiles)
    {
      var validFiles := ValidFiles(files);
      if |validFiles| == 0 {
        accepted := false;
        return;
      }
      selectedFiles := validFiles;
      accepted := true;
    }

    /** `convertSingleFont`, from the bytes the reader delivered. */
    method ConvertSingleFont(file: FontFile) returns (base64CSS: string)
      ensures base64CSS == FontFaceFragment(file)
    {
      var base64 := ArrayBufferToBase64(file.bytes);
      var fontFamilyName := FamilyName(file.name);
      var fontExtension := Extension(file.name);
      var cssType := MimeType(fontExtension);
      base64CSS := FontFaceText(fontFamilyName, cssType, base64);
    }

    /**
     * `convertFonts`: the fragments of the selected files, then the styling
     * text when it is not empty, trimmed. `cssType` is the checked radio
     * button's value, `customClassName` the class name field's raw text.
     */
    method ConvertFonts(cssType: string, customClassName: string) returns (output: string)
      ensures output == Trim(CombinedCSS(selectedFiles) + StylingCSS(cssType, selectedFiles, customClassName))
    {
      var files := selectedFiles;
      var combinedCSS := "";
      var i := 0;
      while i < |files|
        invariant 0 <= i <= |files|
        invariant combinedCSS == Accumulate(Fragments(files[..i]))
      {
        var base64CSS := ConvertSingleFont(files[i]);
        FragmentsSnoc(files, i);
        AccumulateSnoc(Fragments(files[..i]), base64CSS);
        combinedCSS := combinedCSS + base64CSS + "\n\n";
        i := i + 1;
      }
      assert files[..i] == files;
      var stylingCSS := StylingCSS(cssType, files, customClassName);
      combinedCSS := AppendStyling(combinedCSS, stylingCSS);
      output := Trim(combinedCSS);
    }

    /** The `if (stylingCSS)` of `convertFonts`: append the styling text when it is not empty. */
    static method AppendStyling(combinedCSS: string, stylingCSS: string) returns (result: string)
      ensures result == combinedCSS + stylingCSS
    {
      result := combinedCSS;
      if stylingCSS != "" {
        result := result + stylingCSS;
      }
      AppendNothing(combinedCSS, stylingCSS);
    }

    /**
     * `downloadCSS`'s file name: for a single file its name up to the first
     * dot, in its original case, with `-font.css`; otherwise `custom-fonts.css`.
     */
    function DownloadFileName(): (fileName: string)
      reads this
      ensures |selectedFiles| != 1 ==> fileName == "custom-fonts.css"
      ensures |selectedFiles| == 1 ==>
        |fileName| >= 9 && EndsWith(fileName, "-font.css")
        && IsFirstPart(fileName[..|fileName| - 9], selectedFiles[0].name, '.')
    {
      if |selectedFiles| == 1 then
        var stem := FirstPart(selectedFiles[0].name, '.');
        assert (stem + "-font.css")[..|stem|] == stem;
        stem + "-font.css"
      else "custom-fonts.css"
    }
  }
}
