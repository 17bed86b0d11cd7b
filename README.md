# Portfolio scroll/visibility controller

This project models the only stateful logic of a single-page personal
portfolio site: the controller inside the `Portfolio` page component. The
controller holds three pieces of state:

- `activeSection`: the section the navigation bar highlights. It starts at `home`.
- `showScrollTop`: whether the scroll-to-top button is shown. It starts `false`.
- `isVisible`: the sections whose entrance transition has been triggered. It starts empty.

Two browser events update that state:

- A **scroll event** recomputes `showScrollTop` as `scrollY > 300`. It then scans the eight
  sections in page order (home, about, experience, projects, skills, awards, education,
  contact). It picks the first one whose element exists and whose bounding box satisfies
  `top <= 100 && bottom >= 100`. The active section changes only if such a section exists.
- An **intersection batch** marks every intersecting entry's section as revealed. Entries
  are applied one after the other, and each update keeps every other key.

The navigation bar shows six buttons (Home, About, Experience, Projects, Skills, Contact).
A button is highlighted when its lower-cased label equals the active section's id.

Modules:

- `Sections` (`sections.dfy`): the `Section` datatype, page order, and element ids.
  It also holds the id lookup (`getElementById` restricted to the sections).
- `ActiveSection` (`active_section.dfy`): bounding boxes, the containment test, and the
  recursive first-match search `FirstMatch` that models `sections.find`. It also holds
  `NextActive`, the active section after a scroll.
- `Reveal` (`reveal.dfy`): observer entries, and the batch update `RevealBatch` as a fold
  over the entries. It proves a closed form of the batch and its consequences: monotone,
  idempotent, and independent of entry order.
- `Nav` (`nav.dfy`): labels, ASCII `toLowerCase`, the highlight predicate, and click targets.
- `Controller` (`controller.dfy`): the class `Portfolio` with the three fields. Its methods
  `OnScroll` and `OnIntersect` are proved against `NextActive` and `RevealBatch`;
  `OnIntersect` loops over the entries as the callback's `forEach` does.

DOM inputs become plain parameters. A scroll event receives the scroll offset and a map
from section to `(top, bottom)`. A section that is absent from the map has no element in
the document. An intersection batch is a sequence of `(section, isIntersecting)` entries.
Offsets and coordinates are `real`, because the code only compares them with constants.

The ids that the source stores as strings are modelled by `Section`. Every id written to
`activeSection` comes from the fixed list. Every entry's target is one of the observed
`section[id]` elements, and the page has exactly eight of them. So "the active section is
always one of the eight ids" holds by typing. `Sections.ResolveIdOfId` and
`Sections.IdInjective` show that the id strings are distinct.

The containment test at app/page.tsx:39 is inclusive at both ends, so a zero-height box
lying exactly on line 100 matches (`ActiveSection.ZeroHeightOnProbeLineMatches`).

## Model

| member | source | states |
|---|---|---|
| Sections.ResolveId | app/page.tsx:68-69 | the element lookup by id (reached from the nav buttons at line 87) finds a section exactly when the id is one of the eight section ids, and the section found carries that id |
| Sections.IndexOf | app/page.tsx:34 | every section has a position in the scan list, and the list holds that section there |
| Sections.ResolveIdOfId | app/page.tsx:34 | looking up a section's own id finds that section (round trip id → section) |
| Sections.IdInjective | app/page.tsx:34 | two sections have the same id only if they are the same section |
| Sections.OrderIsEnumeration | app/page.tsx:34 | the scan list contains every section, and no section twice |
| ActiveSection.FirstMatch | app/page.tsx:35-42 | `find` returns nothing iff no candidate has an element straddling the probe line; otherwise it returns a candidate that matches and no earlier candidate matches |
| ActiveSection.NextActive | app/page.tsx:35-43 | after a scroll the active section either matches, or is the previous one and no section at all matches |
| ActiveSection.NextActiveIsFirstMatch | app/page.tsx:34-43 | if the k-th section in page order matches and none before it does, it becomes active whatever was active before (first match wins on overlap) |
| ActiveSection.NextActiveMatches | app/page.tsx:35-43 | when any section matches, the new active section is one that matches |
| ActiveSection.NextActiveKeepsWhenNothingMatches | app/page.tsx:43 | when no section matches, the active section is unchanged |
| ActiveSection.MissingNeverBecomesActive | app/page.tsx:36-41 | a section whose element is missing is active after a scroll only if it was active before |
| ActiveSection.NonStraddlingNeverBecomesActive | app/page.tsx:39 | a section whose box does not straddle line 100 is active after a scroll only if it was active before |
| ActiveSection.ZeroHeightOnProbeLineMatches | app/page.tsx:39 | a zero-height box matches exactly when it lies on line 100 (both bounds inclusive) |
| Reveal.RevealOne | app/page.tsx:49-50 | one entry keeps every key and every `true`; an intersecting entry leaves its section `true`; every other key keeps its value |
| Reveal.RevealBatch | app/page.tsx:48-52 | the batch keeps every key and every `true`, and every intersecting entry's section ends `true` |
| Reveal.RevealBatchClosedForm | app/page.tsx:48-52 | applying a batch entry by entry equals the old map with `true` written under every intersecting entry's section |
| Reveal.RevealBatchMonotone | app/page.tsx:50 | a batch only adds keys; every intersecting section ends `true`; every other key keeps its value |
| Reveal.RevealBatchNeverWritesFalse | app/page.tsx:50 | a `false` value after a batch was already there before it |
| Reveal.RevealBatchKeepsAllTrue | app/page.tsx:50 | a map holding only `true` still holds only `true` after a batch |
| Reveal.RevealBatchIdempotent | app/page.tsx:48-52 | delivering the same batch twice gives the same map as delivering it once |
| Reveal.RevealBatchAlreadyRevealed | app/page.tsx:50 | revealing sections that are already `true` leaves the map unchanged |
| Reveal.RevealBatchOrderIndependent | app/page.tsx:48-52 | two batches with the same entries in any order give the same map |
| Reveal.NonIntersectingEntryIgnored | app/page.tsx:49 | a non-intersecting entry anywhere in a batch has no effect |
| Nav.LowerChar | app/page.tsx:87 | lower-casing one character never yields an upper-case letter and changes only upper-case letters |
| Nav.Lower | app/page.tsx:87 | lower-casing keeps the length, leaves no upper-case letter, and keeps every character that is not upper case |
| Nav.LowerFixesLowerCase | app/page.tsx:89 | a string with no upper-case letter is its own lower case |
| Nav.LowerIdempotent | app/page.tsx:89 | lower-casing twice is the same as lower-casing once |
| Nav.Highlighted | app/page.tsx:89 | a button is highlighted exactly when looking up its lower-cased label finds the active section |
| Nav.NavTarget | app/page.tsx:87 | a button's click finds a section exactly when some section's id is the lower-cased label, and the section found carries that id |
| Nav.LowerNavLabel | app/page.tsx:84-89 | each button label lower-cases to the id of its own section |
| Nav.HighlightedIffTargetsActive | app/page.tsx:87-89 | a button is highlighted exactly when its click targets the active section |
| Nav.NavTargetExists | app/page.tsx:84-87 | each button's click targets an existing section, its own |
| Nav.HighlightedIff | app/page.tsx:84-89 | the i-th button is highlighted iff its own section is active |
| Nav.AtMostOneHighlighted | app/page.tsx:84-89 | no two buttons are highlighted at once |
| Nav.SomeHighlightedIff | app/page.tsx:84-89 | some button is highlighted iff the active section is neither awards nor education |
| Controller.Portfolio.constructor | app/page.tsx:25-27 | the initial state: active section home, no scroll-top button, empty revealed map |
| Controller.Portfolio.OnScroll | app/page.tsx:30-44 | the button flag is `scrollY > 300` and depends on nothing else; the active section becomes `NextActive` of the old one; the revealed map is untouched; only-`true` values are kept |
| Controller.Portfolio.OnIntersect | app/page.tsx:47-53 | the loop over entries leaves the revealed map equal to `RevealBatch` of the old map; the other two fields are untouched; only-`true` values are kept |

## Left out

- Smooth scrolling (`scrollToSection`, `scrollToTop`, app/page.tsx:68-74): these only ask the browser to scroll. They change no state of the component. So "navigating to a section makes it active" and "scroll-to-top hides the button" are browser behaviour, not properties of this code.
- How the browser computes `getBoundingClientRect` and decides `isIntersecting` at threshold 0.1: both are inputs.
- Adding and removing the scroll listener and the intersection observer on mount and unmount, `querySelectorAll` and `disconnect`: lifecycle plumbing with no state.
- JavaScript numbers: offsets and coordinates are `real`, so NaN and infinities are not modelled. The code only compares them with 100 and 300.
- Nav.Lower: lower-cases ASCII letters only, not Unicode `toLowerCase`, because the six labels are ASCII.
- Entry targets are sections rather than arbitrary id strings, because the observer only observes the page's eight `section[id]` elements.
- React's scheduling of state updates: each setter is applied in order, as the functional updates on app/page.tsx:50 are.
- The JSX markup, styling, icons, random particle positions and skill-bar widths, and the contact form (app/page.tsx:76-597), and `app/layout.tsx`: presentational, with no behaviour.
