/**
 * The EN/MY language toggle of script.js: buttons tagged with a `data-lang` attribute and
 * content sections tagged with a `lang-<code>` class. Choosing a language marks the matching
 * buttons active and shows exactly the sections of that language.
 */
module LanguageToggle {
  import opened Wrappers

  /** The inline `style.display` of a section: never set yet, `block` or `none`. */
  datatype Display = Unset | Block | Hidden

  /** A `.lang-btn` element: its `data-lang` attribute (absent reads as `undefined`) and class list. */
  datatype Button = Button(dataLang: Option<string>, classes: set<string>)

  /** A `.lang-section` element: its class list and inline display. */
  datatype Section = Section(classes: set<string>, display: Display)

  const ActiveClass := "active"
  const DefaultLang := "en"

  /** The class a section of language `lang` carries; an `undefined` code concatenates as "undefined". */
  function LangClass(lang: Option<string>): string {
    "lang-" + (if lang.Some? then lang.value else "undefined")
  }

  /** `btn.classList.toggle('active', btn.dataset.lang === lang)`. */
  function ToggleButton(b: Button, lang: Option<string>): (r: Button)
    ensures r.dataLang == b.dataLang
    ensures ActiveClass in r.classes <==> b.dataLang == lang
    ensures r.classes - {ActiveClass} == b.classes - {ActiveClass}
  {
    if b.dataLang == lang then b.(classes := b.classes + {ActiveClass})
    else b.(classes := b.classes - {ActiveClass})
  }

  /** A section is displayed `block` exactly when it carries the class of `lang`, otherwise `none`. */
  function ShowSection(s: Section, lang: Option<string>): (r: Section)
    ensures r.classes == s.classes
    ensures r.display == Block <==> LangClass(lang) in s.classes
    ensures r.display != Unset
  {
    if LangClass(lang) in s.classes then s.(display := Block) else s.(display := Hidden)
  }

  /**
   * `setLanguage(lang)`: one pass over the buttons, one over the sections, each element updated
   * in place and nothing else touched.
   */
  method SetLanguage(buttons: array<Button>, sections: array<Section>, lang: Option<string>)
    modifies buttons, sections
    ensures forall i :: 0 <= i < buttons.Length ==> buttons[i] == ToggleButton(old(buttons[i]), lang)
    ensures forall i :: 0 <= i < sections.Length ==> sections[i] == ShowSection(old(sections[i]), lang)
  {
    for i := 0 to buttons.Length
      invariant sections[..] == old(sections[..])
      invariant forall k :: 0 <= k < i ==> buttons[k] == ToggleButton(old(buttons[k]), lang)
      invariant forall k :: i <= k < buttons.Length ==> buttons[k] == old(buttons[k])
    {
      buttons[i] := ToggleButton(buttons[i], lang);
    }
    for i := 0 to sections.Length
      invariant forall k :: 0 <= k < buttons.Length ==> buttons[k] == ToggleButton(old(buttons[k]), lang)
      invariant forall k :: 0 <= k < i ==> sections[k] == ShowSection(old(sections[k]), lang)
      invariant forall k :: i <= k < sections.Length ==> sections[k] == old(sections[k])
    {
      sections[i] := ShowSection(sections[i], lang);
    }
  }

  /**
   * `setupLanguageToggle()`: on a page without buttons or without sections nothing happens;
   * otherwise the default language English is applied.
   */
  method Setup(buttons: array<Button>, sections: array<Section>)
    modifies buttons, sections
    ensures buttons.Length == 0 || sections.Length == 0 ==>
      buttons[..] == old(buttons[..]) && sections[..] == old(sections[..])
    ensures buttons.Length > 0 && sections.Length > 0 ==>
      (forall i :: 0 <= i < buttons.Length ==> buttons[i] == ToggleButton(old(buttons[i]), Some(DefaultLang)))
      && (forall i :: 0 <= i < sections.Length ==> sections[i] == ShowSection(old(sections[i]), Some(DefaultLang)))
  {
    if buttons.Length == 0 || sections.Length == 0 {
      return;
    }
    SetLanguage(buttons, sections, Some(DefaultLang));
  }

  /**
   * A click on button `j` applies that button's own `data-lang`, read at click time. The click
   * handlers exist only on a page that has sections as well as buttons.
   */
  method ClickButton(buttons: array<Button>, sections: array<Section>, j: nat)
    requires j < buttons.Length && sections.Length > 0
    modifies buttons, sections
    ensures forall i :: 0 <= i < buttons.Length ==>
      buttons[i] == ToggleButton(old(buttons[i]), old(buttons[j].dataLang))
    ensures forall i :: 0 <= i < sections.Length ==>
      sections[i] == ShowSection(old(sections[i]), old(buttons[j].dataLang))
    ensures ActiveClass in buttons[j].classes
  {
    SetLanguage(buttons, sections, buttons[j].dataLang);
  }
}
