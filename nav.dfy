// The fixed navigation bar: six labelled buttons, each scrolling to the
// section whose id is its lower-cased label, and highlighted when that id
// is the active section.

module Nav {
  import opened Sections

  /** The button labels, left to right. */
  const NavLabels: seq<string> := ["Home", "About", "Experience", "Projects", "Skills", "Contact"]

  /** The sections the buttons stand for, in the same order. */
  const NavSections: seq<Section> := [Home, About, Experience, Projects, Skills, Contact]

  /** An upper-case ASCII letter. */
  predicate IsUpper(c: char)
  {
    'A' <= c <= 'Z'
  }

  /** `toLowerCase` on one character; only ASCII letters occur in the labels.
      The result is never upper case, and only upper-case letters change. */
  function LowerChar(c: char): (d: char)
    ensures !IsUpper(d)
    ensures d != c ==> IsUpper(c)
  {
    if 'A' <= c <= 'Z' then (c as int - 'A' as int + 'a' as int) as char else c
  }

  /** `toLowerCase` on a string, character by character. The result has the
      same length, holds no upper-case letter, and keeps every other character. */
  function Lower(s: string): (t: string)
    ensures |t| == |s|
    ensures forall i :: 0 <= i < |t| ==> !IsUpper(t[i])
    ensures forall i :: 0 <= i < |s| && !IsUpper(s[i]) ==> t[i] == s[i]
  {
    seq(|s|, i requires 0 <= i < |s| => LowerChar(s[i]))
  }

  /** A string with no upper-case letter is its own lower case. */
  lemma LowerFixesLowerCase(s: string)
    requires forall i :: 0 <= i < |s| ==> !IsUpper(s[i])
    ensures Lower(s) == s
  {
  }

  /** Lower-casing twice is lower-casing once. */
  lemma LowerIdempotent(s: string)
    ensures Lower(Lower(s)) == Lower(s)
  {
    LowerFixesLowerCase(Lower(s));
  }

  /** The class choice of a button: highlighted when the active section's id
      equals the lower-cased label, that is, when looking up the lower-cased
      label finds the active section. */
  predicate Highlighted(activeSection: Section, item: string)
    ensures Highlighted(activeSection, item) <==> ResolveId(Lower(item)) == Some(activeSection)
  {
    ResolveIdOfId(activeSection);
    Id(activeSection) == Lower(item)
  }

  /** The section a button's click scrolls to, looked up by its lower-cased
      label: found exactly when some section carries that id. */
  function NavTarget(item: string): (r: Option<Section>)
    ensures r.Some? ==> Id(r.value) == Lower(item)
    ensures r.None? <==> forall s: Section :: Id(s) != Lower(item)
  {
    ResolveId(Lower(item))
  }

  /** Each label lower-cases to the id of the section it stands for. */
  lemma LowerNavLabel(i: int)
    requires 0 <= i < |NavLabels|
    ensures Lower(NavLabels[i]) == Id(NavSections[i])
  {
  }

  /** A button is highlighted exactly when its click targets the active section. */
  lemma HighlightedIffTargetsActive(activeSection: Section, item: string)
    ensures Highlighted(activeSection, item) <==> NavTarget(item) == Some(activeSection)
  {
  }

  /** Every button targets a section that exists on the page: its own. */
  lemma NavTargetExists(i: int)
    requires 0 <= i < |NavLabels|
    ensures NavTarget(NavLabels[i]) == Some(NavSections[i])
  {
    LowerNavLabel(i);
    ResolveIdOfId(NavSections[i]);
  }

  /** The `i`-th button is highlighted exactly when its own section is active. */
  lemma HighlightedIff(activeSection: Section, i: int)
    requires 0 <= i < |NavLabels|
    ensures Highlighted(activeSection, NavLabels[i]) <==> activeSection == NavSections[i]
  {
  }

  /** At most one button is highlighted at a time. */
  lemma AtMostOneHighlighted(activeSection: Section, i: int, j: int)
    requires 0 <= i < |NavLabels| && 0 <= j < |NavLabels|
    requires Highlighted(activeSection, NavLabels[i]) && Highlighted(activeSection, NavLabels[j])
    ensures i == j
  {
  }

  /** Some button is highlighted unless the active section is Awards or
      Education, which have no button. */
  lemma SomeHighlightedIff(activeSection: Section)
    ensures (exists i :: 0 <= i < |NavLabels| && Highlighted(activeSection, NavLabels[i]))
            <==> activeSection != Awards && activeSection != Education
  {
    forall i | 0 <= i < |NavLabels|
      ensures Highlighted(activeSection, NavLabels[i]) <==> activeSection == NavSections[i]
    {
      HighlightedIff(activeSection, i);
    }
    if activeSection != Awards && activeSection != Education {
      var i := match activeSection
        case Home => 0 case About => 1 case Experience => 2
        case Projects => 3 case Skills => 4 case _ => 5;
      assert NavSections[i] == activeSection;
    }
  }
}
