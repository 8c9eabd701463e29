/**
 * `FlowyHeuristics`: the error-keyword test used by the status scans, the
 * cleanup that turns raw controller type names into screen names, and the
 * cleanup of element texts.
 */
module Heuristics {
  import opened Wrappers
  import opened Text

  /** The fifteen lower-case keywords, English then Italian, that mark an error message. */
  const ErrorKeywords: seq<string> := [
    "error", "failed", "failure", "wrong", "denied", "forbidden", "fatal", "exception",
    "errore", "fallito", "non trovato", "invalido", "riprova", "attenzione", "vietato"
  ]

  /** `isErrorText(_:)`: the lower-cased text contains one of the error keywords. */
  function IsErrorText(text: Option<string>): (b: bool)
    ensures text.None? ==> !b
    ensures text.Some? ==>
      (b <==> exists k :: 0 <= k < |ErrorKeywords| && Contains(Lower(text.value), ErrorKeywords[k]))
  {
    match text
    case None => false
    case Some(t) =>
      ContainsAnyIff(Lower(t), ErrorKeywords);
      ContainsAny(Lower(t), ErrorKeywords)
  }

  /** The error test ignores letter case. */
  lemma ErrorTextIgnoresCase(t: string)
    ensures IsErrorText(Some(t)) == IsErrorText(Some(Lower(t)))
  {
    LowerIdempotent(t);
  }

  /** More text never turns an error message into a non-error. */
  lemma {:induction false} ErrorTextPersistsUnderExtension(a: string, b: string)
    requires IsErrorText(Some(a))
    ensures IsErrorText(Some(a + b))
  {
    var k := ContainsAnyWitness(Lower(a), ErrorKeywords);
    LowerAppend(a, b);
    ContainsExtend(Lower(a), Lower(b), ErrorKeywords[k]);
    ContainsAnyMember(Lower(a + b), ErrorKeywords, k);
  }

  const HostingMarker := "UIHostingController"

  /**
   * `cleanScreenName` slices between the first `<` and the last `>` of a
   * hosting-controller name; the slice traps when that `>` comes before that
   * `<`. This is the input condition under which it returns.
   */
  predicate CleanDefined(raw: string) {
    !(Contains(raw, HostingMarker) && '<' in raw && '>' in raw
      && LastIndexOf(raw, '>') < FirstIndexOf(raw, '<'))
  }

  /**
   * Step 1: `UIHostingController<Inner>` becomes `Inner`, the text between
   * the first `<` and the last `>`; other names pass unchanged.
   */
  function UnwrapHosting(name: string): (r: string)
    requires CleanDefined(name)
    ensures Contains(name, r)
    ensures Contains(name, HostingMarker) && '<' in name && '>' in name ==>
      exists i, j :: 0 <= i < j < |name| && name[i] == '<' && name[j] == '>'
        && '<' !in name[..i] && '>' !in name[j + 1..] && r == name[i + 1..j]
    ensures !(Contains(name, HostingMarker) && '<' in name && '>' in name) ==> r == name
  {
    if Contains(name, HostingMarker) && '<' in name && '>' in name then
      var start, end := FirstIndexOf(name, '<'), LastIndexOf(name, '>');
      SliceContained(name, start + 1, end);
      assert name[start] == '<' && name[end] == '>';
      name[start + 1..end]
    else
      ContainsSelf(name);
      name
  }

  /** Step 2: cut at the first `(` and trim spaces and tabs. */
  function CutAtParen(name: string): (r: string)
    ensures '(' !in r
    ensures Contains(name, r)
    ensures '(' in name ==>
      exists k :: 0 <= k < |name| && name[k] == '(' && '(' !in name[..k] && r == Trim(name[..k], IsWhitespace)
    ensures '(' !in name ==> r == name
  {
    if '(' in name then
      var k := FirstIndexOf(name, '(');
      var r := Trim(name[..k], IsWhitespace);
      SliceContained(name, 0, k);
      ContainsTransitive(name, name[..k], r);
      AbsentCharStaysAbsent(name[..k], r, '(');
      r
    else
      ContainsSelf(name);
      name
  }

  /** Step 3: keep only what follows the last `.`. */
  function DropModulePrefix(name: string): (r: string)
    ensures '.' !in r
    ensures Contains(name, r)
    ensures '.' in name ==> exists k :: 0 <= k < |name| && name[k] == '.' && r == name[k + 1..]
    ensures '.' !in name ==> r == name
  {
    if '.' in name then
      var k := LastIndexOf(name, '.');
      SliceContained(name, k + 1, |name|);
      assert name[k + 1..] == name[k + 1..|name|];
      name[k + 1..]
    else
      ContainsSelf(name);
      name
  }

  /** Markers of internal SwiftUI and UIKit container names. */
  const NoiseMarkers: seq<string> := ["_", "UI", "Input", "Keyboard", "Sidebar", "Split", "Notifying"]

  /** `ignoredPrefixes.contains { name.hasPrefix($0) || name.contains($0) }`. */
  predicate IsNoise(name: string) {
    exists k :: 0 <= k < |NoiseMarkers| && (HasPrefix(name, NoiseMarkers[k]) || Contains(name, NoiseMarkers[k]))
  }

  /** Executable form of `IsNoise`: a prefix is also a substring, so substring search suffices. */
  function NoiseHit(name: string): (b: bool)
    ensures b <==> IsNoise(name)
  {
    ContainsAnyIff(name, NoiseMarkers);
    if ContainsAny(name, NoiseMarkers) then true
    else
      assert forall k :: 0 <= k < |NoiseMarkers| && HasPrefix(name, NoiseMarkers[k]) ==> Contains(name, NoiseMarkers[k]) by {
        forall k | 0 <= k < |NoiseMarkers| && HasPrefix(name, NoiseMarkers[k]) {
          PrefixIsContained(name, NoiseMarkers[k]);
        }
      }
      false
  }

  /** A name lacking these seven characters holds none of the noise markers. */
  lemma NotNoiseByChars(name: string)
    requires '_' !in name && 'U' !in name && 'I' !in name && 'K' !in name
    requires 'b' !in name && 'p' !in name && 'N' !in name
    ensures !IsNoise(name)
  {
    var probes := ['_', 'U', 'I', 'K', 'b', 'p', 'N'];
    forall k | 0 <= k < |NoiseMarkers|
      ensures !HasPrefix(name, NoiseMarkers[k]) && !Contains(name, NoiseMarkers[k])
    {
      assert probes[k] in NoiseMarkers[k];
      NotContainedByChar(name, NoiseMarkers[k], probes[k]);
      if HasPrefix(name, NoiseMarkers[k]) {
        PrefixIsContained(name, NoiseMarkers[k]);
      }
    }
  }

  lemma LabelsArePlain()
    ensures '(' !in "Split View" && '.' !in "Split View"
    ensures '(' !in "Scroll List" && '.' !in "Scroll List"
  {
  }

  /** Step 4: a noisy split-view name becomes `Split View`, a noisy scroll list `Scroll List`. */
  function RelabelNoise(name: string): (r: string)
    ensures r == name || r == "Split View" || r == "Scroll List"
    ensures '(' !in name && '.' !in name ==> '(' !in r && '.' !in r
    ensures IsNoise(name) && Contains(name, "SplitView") ==> r == "Split View"
    ensures IsNoise(name) && !Contains(name, "SplitView") && Contains(name, "Scroll") && Contains(name, "List") ==>
      r == "Scroll List"
    ensures !IsNoise(name) || !(Contains(name, "SplitView") || (Contains(name, "Scroll") && Contains(name, "List"))) ==>
      r == name
  {
    LabelsArePlain();
    if NoiseHit(name) && Contains(name, "SplitView") then "Split View"
    else if NoiseHit(name) && Contains(name, "Scroll") && Contains(name, "List") then "Scroll List"
    else name
  }

  /** Steps 1 to 3: the name with wrapper, parenthesised suffix and module prefix removed. */
  function BareName(raw: string): (r: string)
    requires CleanDefined(raw)
    ensures '(' !in r && '.' !in r
    ensures Contains(raw, r)
  {
    var unwrapped := UnwrapHosting(raw);
    var cut := CutAtParen(unwrapped);
    var bare := DropModulePrefix(cut);
    AbsentCharStaysAbsent(cut, bare, '(');
    ContainsTransitive(raw, unwrapped, cut);
    ContainsTransitive(raw, cut, bare);
    bare
  }

  /**
   * `cleanScreenName(_:)`. The result never holds `(` or `.`, and it is
   * either one of the two fixed labels or a piece of the raw name.
   */
  function CleanScreenName(raw: string): (r: string)
    requires CleanDefined(raw)
    ensures '(' !in r && '.' !in r
    ensures r == "Split View" || r == "Scroll List" || Contains(raw, r)
  {
    RelabelNoise(BareName(raw))
  }

  /**
   * A noisy name that is neither a split view nor a scroll list is kept as
   * it is after steps 1 to 3, not filtered out.
   */
  lemma NoisyNamesPassThrough(raw: string)
    requires CleanDefined(raw)
    requires var bare := BareName(raw);
      IsNoise(bare) && !Contains(bare, "SplitView") && !(Contains(bare, "Scroll") && Contains(bare, "List"))
    ensures CleanScreenName(raw) == BareName(raw)
  {
  }

  /** A name with no wrapper, parenthesis, module prefix or noise marker is already clean. */
  lemma PlainNameUnchanged(raw: string)
    requires !Contains(raw, HostingMarker) && '(' !in raw && '.' !in raw && !IsNoise(raw)
    ensures CleanDefined(raw) && CleanScreenName(raw) == raw
  {
  }

  /** No `H`, so no hosting-controller marker. */
  lemma NotHosting(name: string)
    requires 'H' !in name
    ensures !Contains(name, HostingMarker)
  {
    assert HostingMarker[2] == 'H';
    NotContainedByChar(name, HostingMarker, 'H');
  }

  /** Steps 1 to 4 put together, for a name whose steps are known. */
  lemma CleanFromSteps(raw: string, unwrapped: string, cut: string, bare: string)
    requires CleanDefined(raw) && UnwrapHosting(raw) == unwrapped
    requires CutAtParen(unwrapped) == cut && DropModulePrefix(cut) == bare
    ensures CleanScreenName(raw) == RelabelNoise(bare)
  {
  }

  lemma ScrollListCut()
    ensures CutAtParen("Scroll List (NoStyle...)") == "Scroll List"
  {
    var raw := "Scroll List (NoStyle...)";
    assert raw[..12] == "Scroll List ";
    FirstIndexOfAt(raw, '(', 12);
    assert IsWhitespace(' ') && !IsWhitespace('S') && !IsWhitespace('t');
    assert TrimStart("Scroll List ", IsWhitespace) == "Scroll List ";
    assert "Scroll List "[..11] == "Scroll List";
    assert TrimEnd("Scroll List ", IsWhitespace) == "Scroll List";
  }

  lemma ScrollListPlain()
    ensures DropModulePrefix("Scroll List") == "Scroll List"
    ensures RelabelNoise("Scroll List") == "Scroll List"
  {
    NotNoiseByChars("Scroll List");
  }

  lemma CleanScrollListExample()
    ensures CleanDefined("Scroll List (NoStyle...)")
    ensures CleanScreenName("Scroll List (NoStyle...)") == "Scroll List"
  {
    var raw := "Scroll List (NoStyle...)";
    NotHosting(raw);
    ScrollListCut();
    ScrollListPlain();
    CleanFromSteps(raw, raw, "Scroll List", "Scroll List");
  }

  lemma HostingUnwrap()
    ensures Contains("UIHostingController<MyView>", HostingMarker)
    ensures CleanDefined("UIHostingController<MyView>")
    ensures UnwrapHosting("UIHostingController<MyView>") == "MyView"
  {
    var raw := "UIHostingController<MyView>";
    HostingMarked();
    HostingBrackets();
    assert raw[20..26] == "MyView";
  }

  lemma HostingMarked()
    ensures Contains("UIHostingController<MyView>", HostingMarker)
  {
    var raw := "UIHostingController<MyView>";
    assert OccursAt(raw, HostingMarker, 0);
    ContainsAt(raw, HostingMarker, 0);
  }

  lemma HostingBrackets()
    ensures FirstIndexOf("UIHostingController<MyView>", '<') == 19
    ensures LastIndexOf("UIHostingController<MyView>", '>') == 26
  {
    var raw := "UIHostingController<MyView>";
    FirstIndexOfAt(raw, '<', 19);
    LastIndexOfAt(raw, '>', 26);
  }

  lemma MyViewPlain()
    ensures CutAtParen("MyView") == "MyView"
    ensures DropModulePrefix("MyView") == "MyView"
    ensures RelabelNoise("MyView") == "MyView"
  {
    assert '(' !in "MyView";
    assert '.' !in "MyView";
    NotNoiseByChars("MyView");
  }

  lemma CleanHostingExample()
    ensures CleanDefined("UIHostingController<MyView>")
    ensures CleanScreenName("UIHostingController<MyView>") == "MyView"
  {
    HostingUnwrap();
    MyViewPlain();
    CleanFromSteps("UIHostingController<MyView>", "MyView", "MyView", "MyView");
  }

  lemma ModulePrefixDrop()
    ensures CleanDefined("MyApp.SettingsView")
    ensures UnwrapHosting("MyApp.SettingsView") == "MyApp.SettingsView"
    ensures CutAtParen("MyApp.SettingsView") == "MyApp.SettingsView"
    ensures DropModulePrefix("MyApp.SettingsView") == "SettingsView"
  {
    var raw := "MyApp.SettingsView";
    assert '(' !in raw;
    NotHosting(raw);
    LastIndexOfAt(raw, '.', 5);
    assert raw[6..] == "SettingsView";
  }

  lemma SettingsViewPlain()
    ensures RelabelNoise("SettingsView") == "SettingsView"
  {
    NotNoiseByChars("SettingsView");
  }

  lemma CleanModulePrefixExample()
    ensures CleanDefined("MyApp.SettingsView")
    ensures CleanScreenName("MyApp.SettingsView") == "SettingsView"
  {
    var raw := "MyApp.SettingsView";
    ModulePrefixDrop();
    SettingsViewPlain();
    CleanFromSteps(raw, raw, raw, "SettingsView");
  }

  lemma SplitViewSteps()
    ensures CleanDefined("UISplitViewController")
    ensures UnwrapHosting("UISplitViewController") == "UISplitViewController"
    ensures CutAtParen("UISplitViewController") == "UISplitViewController"
    ensures DropModulePrefix("UISplitViewController") == "UISplitViewController"
  {
    assert '(' !in "UISplitViewController";
    assert '.' !in "UISplitViewController";
    NotHosting("UISplitViewController");
  }

  lemma SplitViewRelabel()
    ensures RelabelNoise("UISplitViewController") == "Split View"
  {
    var raw := "UISplitViewController";
    assert OccursAt(raw, "UI", 0);
    ContainsAt(raw, "UI", 0);
    ContainsAnyMember(raw, NoiseMarkers, 1);
    assert OccursAt(raw, "SplitView", 2);
    ContainsAt(raw, "SplitView", 2);
  }

  lemma CleanSplitViewExample()
    ensures CleanDefined("UISplitViewController")
    ensures CleanScreenName("UISplitViewController") == "Split View"
  {
    var raw := "UISplitViewController";
    SplitViewSteps();
    SplitViewRelabel();
    CleanFromSteps(raw, raw, raw, raw);
  }

  /** The placeholder for texts that look like internal identifiers. */
  const ElementPlaceholder := "Element"

  /** `cleanElementText(_:)`. */
  function CleanElementText(text: string): (r: string)
    ensures HasPrefix(text, "_") || Contains(text, "Layout") ==> r == ElementPlaceholder
    ensures !(HasPrefix(text, "_") || Contains(text, "Layout")) ==> r == text
  {
    if HasPrefix(text, "_") || Contains(text, "Layout") then ElementPlaceholder else text
  }

  /** Cleaning an element text twice is cleaning it once. */
  lemma CleanElementTextIdempotent(text: string)
    ensures CleanElementText(CleanElementText(text)) == CleanElementText(text)
  {
    NotContainedByChar(ElementPlaceholder, "Layout", 'L');
  }

  lemma CleanElementTextExamples()
    ensures CleanElementText("_UIButtonBarButton") == "Element"
    ensures CleanElementText("SwiftUI.Layout") == "Element"
    ensures CleanElementText("Submit") == "Submit"
  {
    assert OccursAt("SwiftUI.Layout", "Layout", 8);
    ContainsAt("SwiftUI.Layout", "Layout", 8);
    NotContainedByChar("Submit", "Layout", 'L');
    assert "Submit"[..1][0] != "_"[0];
  }
}
