// The eight page sections of the portfolio, in page order, and the DOM ids
// that the scroll handler, the intersection observer and the navigation bar
// use to refer to them.

module Sections {

  datatype Option<T> = None | Some(value: T)

  /** One vertically stacked region of the single page. */
  datatype Section = Home | About | Experience | Projects | Skills | Awards | Education | Contact

  /** The fixed scan order of the scroll handler, which is also page order. */
  const Order: seq<Section> := [Home, About, Experience, Projects, Skills, Awards, Education, Contact]

  /** The `id` attribute of the section's element. */
  function Id(s: Section): string
  {
    match s
    case Home => "home"
    case About => "about"
    case Experience => "experience"
    case Projects => "projects"
    case Skills => "skills"
    case Awards => "awards"
    case Education => "education"
    case Contact => "contact"
  }

  /** `document.getElementById` restricted to the page's sections:
      the section whose element carries this id, if there is one. */
  function ResolveId(id: string): (r: Option<Section>)
    ensures r.Some? ==> Id(r.value) == id
    ensures r.None? ==> forall s: Section :: Id(s) != id
  {
    if id == "home" then Some(Home)
    else if id == "about" then Some(About)
    else if id == "experience" then Some(Experience)
    else if id == "projects" then Some(Projects)
    else if id == "skills" then Some(Skills)
    else if id == "awards" then Some(Awards)
    else if id == "education" then Some(Education)
    else if id == "contact" then Some(Contact)
    else None
  }

  /** Every section's id resolves back to that section, so ids are distinct. */
  lemma ResolveIdOfId(s: Section)
    ensures ResolveId(Id(s)) == Some(s)
  {
  }

  /** Two sections with the same id are the same section. */
  lemma IdInjective(s: Section, t: Section)
    ensures Id(s) == Id(t) <==> s == t
  {
  }

  /** The position of a section in page order. */
  function IndexOf(s: Section): (k: nat)
    ensures k < |Order| && Order[k] == s
  {
    match s
    case Home => 0
    case About => 1
    case Experience => 2
    case Projects => 3
    case Skills => 4
    case Awards => 5
    case Education => 6
    case Contact => 7
  }

  /** The scan order lists every section exactly once. */
  lemma OrderIsEnumeration()
    ensures forall s :: s in Order
    ensures forall i, j :: 0 <= i < j < |Order| ==> Order[i] != Order[j]
  {
    forall s: Section
      ensures s in Order
    {
      assert Order[IndexOf(s)] == s;
    }
  }
}
