/** The Romanian/English translation layer of `assets/js/i18n.js`: a tree of
    translations looked up by dot-separated keys, the rule that writes a
    translation into an element, the language chosen at start-up, the load
    with its fall-back to Romanian, and the switcher button. Fetching a
    translation file is an input: `files` maps each language whose file loads
    to the tree it holds. */
module I18n {
  import opened Wrappers
  import opened Text

  // ---------------------------------------------------------------------------
  // Translation trees and lookup.
  // ---------------------------------------------------------------------------

  /** A translation file: strings, nested under named groups. */
  datatype Tree = Leaf(text: string) | Node(children: map<string, Tree>)

  /** What a lookup yields: nothing (`undefined`), or a subtree. */
  datatype Found = Missing | Found(tree: Tree)

  /** One step of the `reduce`: `obj && obj[k]`. A string leaf has no named
      children here. */
  function Step(v: Found, k: string): (r: Found)
    ensures r.Found? <==> v.Found? && v.tree.Node? && k in v.tree.children
    ensures r.Found? ==> r.tree == v.tree.children[k]
  {
    match v
    case Missing => Missing
    case Found(Leaf(_)) => Missing
    case Found(Node(m)) => if k in m then Found(m[k]) else Missing
  }

  function Descend(v: Found, path: seq<string>): (r: Found)
    ensures v == Missing ==> r == Missing
    decreases |path|
  {
    if path == [] then v else Descend(Step(v, path[0]), path[1..])
  }

  /** `getNestedTranslation(key)`: split at the dots and descend from the root. */
  function Lookup(root: Tree, key: string): (r: Found)
    ensures r.Found? ==> root.Node? && Split(key, '.')[0] in root.children
  {
    var path := Split(key, '.');
    assert Descend(Found(root), path) == Descend(Step(Found(root), path[0]), path[1..]);
    Descend(Found(root), path)
  }

  lemma {:induction false} DescendConcat(v: Found, p: seq<string>, q: seq<string>)
    ensures Descend(v, p + q) == Descend(Descend(v, p), q)
    decreases |p|
  {
    if p != [] {
      assert (p + q)[0] == p[0] && (p + q)[1..] == p[1..] + q;
      DescendConcat(Step(v, p[0]), p[1..], q);
    } else {
      assert p + q == q;
    }
  }

  /** Looking up `a.b` is looking up `b` inside what `a` finds. */
  lemma LookupNested(root: Tree, a: string, b: string)
    ensures Lookup(root, a + "." + b) == Descend(Lookup(root, a), Split(b, '.'))
    ensures Lookup(root, a).Found? ==> Lookup(root, a + "." + b) == Lookup(Lookup(root, a).tree, b)
  {
    SplitAround(a, '.', b);
    DescendConcat(Found(root), Split(a, '.'), Split(b, '.'));
  }

  /** A key without dots is a direct child of the root. */
  lemma LookupSimple(root: Tree, key: string)
    requires '.' !in key
    ensures Lookup(root, key) == (if root.Node? && key in root.children then Found(root.children[key]) else Missing)
  {
    SplitWithoutSeparator(key, '.');
    assert Descend(Found(root), [key]) == Descend(Step(Found(root), key), []);
  }

  // ---------------------------------------------------------------------------
  // Writing translations into the page.
  // ---------------------------------------------------------------------------

  /** A lookup result is truthy unless it is missing or the empty string; an
      object is truthy even when it has no members. */
  predicate Truthy(v: Found) {
    v.Found? && (v.tree.Leaf? ==> v.tree.text != "")
  }

  /** The text a truthy result becomes when assigned: the string itself, or
      `[object Object]` for a group. */
  function TextOf(t: Tree): string {
    match t
    case Leaf(s) => s
    case Node(_) => "[object Object]"
  }

  /** An element carrying `data-i18n`: its tag name, key, placeholder and text. */
  datatype Element = Element(tag: string, key: string, placeholder: string, text: string)

  predicate TakesPlaceholder(e: Element) {
    e.tag == "INPUT" || e.tag == "TEXTAREA"
  }

  /** The write rule of `applyTranslations` for one element. */
  function Translate(root: Tree, e: Element): (r: Element)
    ensures r.tag == e.tag && r.key == e.key
    ensures !Truthy(Lookup(root, e.key)) ==> r == e
    ensures Truthy(Lookup(root, e.key)) && TakesPlaceholder(e) ==>
              r.placeholder == TextOf(Lookup(root, e.key).tree) && r.text == e.text
    ensures Truthy(Lookup(root, e.key)) && !TakesPlaceholder(e) ==>
              r.text == TextOf(Lookup(root, e.key).tree) && r.placeholder == e.placeholder
  {
    var v := Lookup(root, e.key);
    if !Truthy(v) then e
    else if TakesPlaceholder(e) then e.(placeholder := TextOf(v.tree))
    else e.(text := TextOf(v.tree))
  }

  /** `applyTranslations` over the page's `data-i18n` elements, in order. */
  function ApplyTranslations(root: Tree, elements: seq<Element>): (r: seq<Element>)
    ensures |r| == |elements|
    ensures forall i :: 0 <= i < |elements| ==> r[i] == Translate(root, elements[i])
  {
    if elements == [] then [] else [Translate(root, elements[0])] + ApplyTranslations(root, elements[1..])
  }

  /** Applying the same translations twice changes nothing more. */
  lemma ApplyIdempotent(root: Tree, elements: seq<Element>)
    ensures ApplyTranslations(root, ApplyTranslations(root, elements)) == ApplyTranslations(root, elements)
  {
    var once := ApplyTranslations(root, elements);
    assert forall i :: 0 <= i < |once| ==> Translate(root, once[i]) == once[i];
  }

  // ---------------------------------------------------------------------------
  // Languages.
  // ---------------------------------------------------------------------------

  const Romanian := "ro"
  const English := "en"

  /** The switcher's target: Romanian goes to English, anything else to
      Romanian. */
  function Toggled(lang: string): (r: string)
    ensures lang == Romanian ==> r == English
    ensures lang != Romanian ==> r == Romanian
  {
    if lang == Romanian then English else Romanian
  }

  /** Toggling twice from either supported language comes back to it. */
  lemma ToggleTwice(lang: string)
    requires lang == Romanian || lang == English
    ensures Toggled(Toggled(lang)) == lang
  {
  }

  /** The language read at start-up: the stored preference unless it is absent
      or empty, otherwise Romanian. */
  function InitialLanguage(stored: Option<string>): (lang: string)
    ensures stored.Some? && stored.value != "" ==> lang == stored.value
    ensures stored.None? || stored.value == "" ==> lang == Romanian
  {
    if stored.Some? && stored.value != "" then stored.value else Romanian
  }

  /** `currentLang`, the stored preference, the loaded tree, the page's
      elements, the `lang` attribute of the document, the switcher's text and
      `data-lang`, and the files requested so far. */
  datatype I18nState = I18nState(current: string, stored: Option<string>, table: Tree, elements: seq<Element>,
                                 htmlLang: string, switcherText: string, switcherLang: string,
                                 requested: seq<string>)

  /** `loadTranslations(lang)`: a file that loads replaces the table; a failure
      keeps the table and, for a language other than Romanian, switches to
      Romanian and tries once more. */
  function Load(s: I18nState, lang: string, files: map<string, Tree>): (r: I18nState)
    ensures r.stored == s.stored && r.elements == s.elements && r.htmlLang == s.htmlLang
    ensures lang in files ==> r == s.(table := files[lang], requested := s.requested + [lang])
    ensures lang !in files && lang == Romanian ==> r == s.(requested := s.requested + [lang])
    ensures lang !in files && lang != Romanian ==>
              r.current == Romanian && r.requested == s.requested + [lang, Romanian]
              && r.table == (if Romanian in files then files[Romanian] else s.table)
    decreases if lang == Romanian then 0 else 1
  {
    var tried := s.(requested := s.requested + [lang]);
    if lang in files then tried.(table := files[lang])
    else if lang != Romanian then Load(tried.(current := Romanian), Romanian, files)
    else tried
  }

  /** `updateLanguageSwitcher`: the button names and targets the other
      language. */
  function UpdateSwitcher(s: I18nState): (r: I18nState)
    ensures r.switcherLang == Toggled(s.current)
    ensures r.switcherText == (if s.current == Romanian then "EN" else "RO")
    ensures r.current == s.current && r.table == s.table && r.stored == s.stored
  {
    s.(switcherText := if s.current == Romanian then "EN" else "RO", switcherLang := Toggled(s.current))
  }

  /** `initI18n`: choose the language, load it, translate the page, then set
      the document language and the switcher. The table starts empty. */
  function Init(stored: Option<string>, elements: seq<Element>, files: map<string, Tree>): (r: I18nState)
    ensures r.htmlLang == r.current && r.stored == stored
    ensures r.current == (if InitialLanguage(stored) in files then InitialLanguage(stored) else Romanian)
    ensures r.table == if InitialLanguage(stored) in files then files[InitialLanguage(stored)]
                       else if Romanian in files then files[Romanian] else Node(map[])
    ensures r.elements == ApplyTranslations(r.table, elements)
    ensures r.switcherLang == Toggled(r.current)
  {
    var s := I18nState(InitialLanguage(stored), stored, Node(map[]), elements, "", "", "", []);
    var loaded := Load(s, s.current, files);
    var applied := loaded.(elements := ApplyTranslations(loaded.table, loaded.elements), htmlLang := loaded.current);
    UpdateSwitcher(applied)
  }

  /** The switcher's click handler as written: the new language is stored
      before loading, and the document's `lang` is set to it even when the
      load fell back to Romanian. */
  function ToggleAsWritten(s: I18nState, files: map<string, Tree>): (r: I18nState)
    ensures r.stored == Some(Toggled(s.current))
    ensures r.htmlLang == Toggled(s.current)
    ensures r == Toggle(s, files).(htmlLang := Toggled(s.current))
  {
    var newLang := Toggled(s.current);
    var loaded := Load(s.(stored := Some(newLang), current := newLang), newLang, files);
    var applied := loaded.(elements := ApplyTranslations(loaded.table, loaded.elements), htmlLang := newLang);
    UpdateSwitcher(applied)
  }

  /** English that fails to load: the page is Romanian, yet the document says
      `en`. */
  lemma ToggleAsWrittenMislabels()
    ensures var files := map[Romanian := Node(map[])];
      var s := Init(None, [], files);
      var r := ToggleAsWritten(s, files);
      r.current == Romanian && r.htmlLang == English && r.stored == Some(English)
  {
  }

  /** The click handler with the document's `lang` set to the language in
      effect after loading, as start-up does. */
  function Toggle(s: I18nState, files: map<string, Tree>): (r: I18nState)
    ensures r.stored == Some(Toggled(s.current))
    ensures r.current == (if Toggled(s.current) in files then Toggled(s.current) else Romanian)
    ensures r.table == if Toggled(s.current) in files then files[Toggled(s.current)]
                       else if Romanian in files then files[Romanian] else s.table
    ensures r.htmlLang == r.current
    ensures r.elements == ApplyTranslations(r.table, s.elements)
    ensures r.switcherLang == Toggled(r.current)
  {
    var newLang := Toggled(s.current);
    var loaded := Load(s.(stored := Some(newLang), current := newLang), newLang, files);
    var applied := loaded.(elements := ApplyTranslations(loaded.table, loaded.elements), htmlLang := loaded.current);
    UpdateSwitcher(applied)
  }

  /** With both files available, two clicks come back to the starting
      language and its translations. */
  lemma ToggleRoundTrip(s: I18nState, files: map<string, Tree>)
    requires s.current == Romanian || s.current == English
    requires Romanian in files && English in files
    requires s.table == files[s.current]
    ensures var r := Toggle(Toggle(s, files), files);
      r.current == s.current && r.table == s.table && r.stored == Some(s.current)
  {
  }

  /** A stored preference that fails to load is kept, while the page falls back
      to Romanian. */
  lemma StoredSurvivesFallback(s: I18nState, files: map<string, Tree>)
    requires s.current == Romanian && English !in files
    ensures var r := Toggle(s, files);
      r.stored == Some(English) && r.current == Romanian && r.requested == s.requested + [English, Romanian]
  {
  }
}
