# Crosspointe volunteer-request script, modelled in Dafny

The script runs once when a church web page loads. It fetches the
organisation's group list and checks whether any group's free-text schedule
mentions Wednesday. If none does, or if the check fails, it turns the page's
"Wednesday night" element into a flip card. The card's front shows the
element's old content. Its back links to a volunteer sign-up form. Hovering
over the card flips it.

The model has six modules, one per component of `crosspointe_requests_script.js`:

- `Wrappers` (wrappers.dfy): `Option`, which stands for JavaScript's null and undefined.
- `Weekday` (weekday.dfy): the test `schedule.match(/\b(wed(?:nesday|nesdays)?)\b/i)`.
  `Exec` returns the leftmost match the way the regular-expression engine finds
  it. It tries start positions from left to right. At each position it tries
  the spellings in the pattern's order of preference: "wednesday", then
  "wednesdays", then "wed". `MentionsWednesday` is the plain meaning: an
  ASCII-case-insensitive occurrence of one of the three spellings, with a
  non-word character or an end of the string on each side. A lemma proves that
  the two agree.
- `Schedule` (schedule.dfy): `searchForWednesday`. The fetch result is an input
  value (`Payload`). The result is three-valued: `Meets` (the function resolves
  to `true`), `DoesNotMeet` (`false`) and `Unknown` (`undefined`, after any
  fault). `Search` states the outcome declaratively. `SearchForWednesday` is the
  code's own two loops, proved equal to it.
- `Dom` (dom.dfy): element nodes as a class with a `children: seq<Node>` field.
  Each node has a ghost structural value (`Tree`) and a footprint (`Repr`), tied
  together by `Valid()`. The module also holds `createElement`,
  `classList.add`, `appendChild`, `innerHTML = ''` and `cloneNode(true)`.
- `Card` (card.dfy): `newCardFront`, `newCardBack`, `newCard`,
  `newCardContainer`, `callVolunteers`, and the two hover handlers as a state
  machine over the card's `style.transform`.
- `Orchestrator` (orchestrator.dfy): `main`. It awaits the search, injects the
  card unless the result is truthy, and proves the three end-to-end scenarios.

Inputs that stand in for I/O: the fetch result (`Schedule.Payload`), the host
element (a parameter of `CallVolunteers` and `Run`), and the pointer events
(a parameter of `Dispatch`).

Behaviour of the code that the model follows:

- A fault never excludes just one record. A null group anywhere in the list
  makes the whole search `undefined`, even after a match, because the `map` at
  lines 35-37 visits every group before the loop starts. A missing or
  non-string schedule makes it `undefined` only if the loop reaches it, that
  is, if no earlier group matched.
- An `undefined` result is falsy, so `main` shows the card after any failure.
  The code fails open, not closed.
- `fetchResource` returns `response.json()` without awaiting it. A JSON parse
  failure is therefore caught in `searchForWednesday`, not in `fetchResource`.
  The outcome is `Unknown` either way.

## Model

| member | source | states |
|---|---|---|
| `Weekday.TryAt` | crosspointe_requests_script.js:40 | The spelling reported at a position is one with which the whole pattern, both `\b` included, succeeds there, and every spelling the alternation prefers to it fails there; no spelling succeeds when none is reported. |
| `Weekday.ExecFrom` | crosspointe_requests_script.js:40 | The match found is the leftmost one: its text is the slice of the schedule at its index, folds to one of the three spellings and satisfies the pattern there, and the pattern fails at every earlier position; when there is no match, it fails at every position. |
| `Weekday.Exec` | crosspointe_requests_script.js:40 | `schedule.match(pattern)` returns the leftmost match or null: a reported match folds to one of the three spellings and satisfies the whole pattern at its index, the pattern fails at every earlier position, and null means it fails at every position. |
| `Weekday.Matches` | crosspointe_requests_script.js:40 | The match result is truthy exactly when the pattern, `\b` on both sides included, succeeds at some position of the schedule. |
| `Weekday.ExecFindsIffMentions` | crosspointe_requests_script.js:40 | `schedule.match` is truthy exactly when the schedule contains "wed", "wednesday" or "wednesdays" in any ASCII letter case, with a string edge or a non-word character on each side. |
| `Weekday.PatternIffStandalone` | crosspointe_requests_script.js:40 | For each of the three spellings, a `\b` on each side means the same as a string edge or a non-`[A-Za-z0-9_]` character on each side, because every spelling starts and ends with a letter. |
| `Weekday.CaseInsensitive` | crosspointe_requests_script.js:40 | Lower-casing the ASCII letters of a schedule never changes whether it matches (the `i` flag). |
| `Weekday.MatchStartsWithWed` | crosspointe_requests_script.js:40 | Every match begins with "wed" in some letter case, and its first character is `w` or `W`. |
| `Weekday.NoWedNeverMatches` | crosspointe_requests_script.js:40 | A schedule with no case-insensitive "wed" anywhere never matches. |
| `Weekday.NoWNeverMatches` | crosspointe_requests_script.js:40 | A schedule with no `w` or `W` never matches. |
| `Weekday.StandaloneExamples` | crosspointe_requests_script.js:40 | "Wed 7pm", "WEDNESDAYS", "Tue/Wed." and "Wednesday's" match. |
| `Weekday.TouchingExamples` | crosspointe_requests_script.js:40 | "Wedding", "wedge", "Wed7pm", "_wed" and "wednesdayx" do not match: a letter, digit or underscore touches the spelling. |
| `Schedule.SearchForWednesday` | crosspointe_requests_script.js:26-49 | The code's map loop and early-exit loop produce exactly the declarative outcome `Search`, including every fault path. |
| `Schedule.AllStringsDecide` | crosspointe_requests_script.js:35-45 | When every group has a string schedule, the result is `Meets` exactly when some schedule matches and `DoesNotMeet` otherwise; an empty list gives `DoesNotMeet`. |
| `Schedule.StopsAtFirstHit` | crosspointe_requests_script.js:39-43 | Once a schedule matches, any later groups leave the result `Meets`, whatever their schedules hold, provided none of them is null. |
| `Schedule.UnknownIff` | crosspointe_requests_script.js:32-48 | The result is `Unknown` exactly when the fetch failed, the payload is not an array, some group is null, or the loop reaches a group without a string schedule before any match. |
| `Schedule.FaultExcludesHit` | crosspointe_requests_script.js:39-42 | A missing schedule that the loop reaches rules out every later match. |
| `Schedule.NoHitWithFaultIsUnknown` | crosspointe_requests_script.js:39-48 | When nothing matches, a missing or non-string schedule anywhere makes the result `Unknown`. |
| `Dom.Node.constructor` | crosspointe_requests_script.js:142 | `createElement` gives a valid, fresh element with the given name, no classes, no children and no transform. |
| `Dom.Node.AddClass` | crosspointe_requests_script.js:57 | `classList.add` appends the class unless it is already present and changes nothing else. |
| `Dom.Node.AppendChild` | crosspointe_requests_script.js:97-98 | Appending a parentless node puts it last among the children, keeps the tree valid, and extends the structural value by the child's tree. |
| `Dom.Node.AppendFirstChildOf` | crosspointe_requests_script.js:146 | `appendChild(from.firstChild)` detaches the first child of `from` and appends it here; both trees stay valid and lose or gain exactly that subtree. |
| `Dom.Node.RemoveFirstChild` | crosspointe_requests_script.js:146 | Detaching the first child leaves the rest in order and returns that child, still valid, with its subtree intact. |
| `Dom.Node.ClearChildren` | crosspointe_requests_script.js:68 | `innerHTML = ''` leaves the element valid with no children. |
| `Dom.Node.Clone` | crosspointe_requests_script.js:143 | `cloneNode(true)` returns a valid copy with the same structural value (names, classes, children in order, recursively), made only of fresh nodes. |
| `Card.NewCardFront` | crosspointe_requests_script.js:137-159 | The front is a fresh `div.card-front` whose children are copies of the element's children, in their original order; the clone they were moved out of is left empty; the element itself is untouched. |
| `Card.NewCardBack` | crosspointe_requests_script.js:110-135 | The back is a fresh `div.card-back` turned by `rotateY(180deg)`. |
| `Card.NewCard` | crosspointe_requests_script.js:86-108 | The card is a fresh `div.card` with exactly two children, the front built from the element and then the back, and no transform yet. |
| `Card.NewCardContainer` | crosspointe_requests_script.js:51-84 | The container holds the card built from the host's ORIGINAL children, because the clone is taken before the clear; the host ends with no children. |
| `Card.CallVolunteers` | crosspointe_requests_script.js:161-196 | The host ends with exactly one child, the container holding the card, whose front carries copies of the host's original children; the card starts with its transform unset. |
| `Card.Dispatch` | crosspointe_requests_script.js:190-195 | A `mouseover` sets the card's transform to `rotateY(180deg)` and a `mouseout` sets it to `rotateY(0deg)`. |
| `Card.Handle` | crosspointe_requests_script.js:190-195 | Each handler writes a `rotateY` transform: 180 degrees (flipped) exactly for `mouseover`, 0 degrees exactly for `mouseout`. |
| `Card.Replay` | crosspointe_requests_script.js:190-195 | No contract of its own: the card's transform after a history of handled events; `Card.ReplayIsLastEvent` and `Card.ReplayAppend` state what it means. |
| `Card.ReplayAppend` | crosspointe_requests_script.js:190-195 | Replaying a history in two parts equals replaying it whole, so successive `Dispatch` calls, each of which replays one event, leave the card in the state `Replay` gives for the whole event history. |
| `Card.ReplayIsLastEvent` | crosspointe_requests_script.js:190-195 | With no event the transform is the starting (unset) value; after one or more events it is what the last event's handler wrote. |
| `Card.EventsIdempotent` | crosspointe_requests_script.js:190-195 | Repeating an event changes nothing; a mouseover always leaves the card flipped and a full over-then-out cycle always leaves it unflipped, whatever came before. |
| `Card.OnlyLastEventMatters` | crosspointe_requests_script.js:190-195 | Two event histories that end with the same event leave the card in the same state, whatever each started from. |
| `Orchestrator.Resolution` | crosspointe_requests_script.js:32-48 | No contract of its own: the value searchForWednesday resolves to, `true` on a match, `false` after a full scan, `undefined` after a caught error; `Orchestrator.Injects` states the decision it feeds. |
| `Orchestrator.Truthy` | crosspointe_requests_script.js:207 | No contract of its own: JavaScript truthiness of those three values, where only `true` is truthy; `Orchestrator.Injects` states the decision it makes. |
| `Orchestrator.Injects` | crosspointe_requests_script.js:205-209 | The card is injected exactly when the outcome is not `Meets`, so `Unknown` (undefined, falsy) injects it. |
| `Orchestrator.Run` | crosspointe_requests_script.js:198-210 | `main` injects exactly when `Injects(Search(p))`. When a group meets on Wednesday the host is unchanged. Otherwise the host's only child is a container made of fresh nodes whose only child is the returned card, the card that the hover handlers change, and the card is built from the host's old content and starts unflipped. |
| `Orchestrator.ScenarioWednesdayGroup` | crosspointe_requests_script.js:205-207 | Schedules "Sundays 9am, 11am" then "Wednesday 7pm" give `Meets`, and no card is injected. |
| `Orchestrator.ScenarioNoWednesdayGroup` | crosspointe_requests_script.js:205-209 | The single schedule "Sundays 9am, 11am" gives `DoesNotMeet`, and the card is injected. |
| `Orchestrator.ScenarioFailures` | crosspointe_requests_script.js:32-48 | A failed fetch or a non-array payload gives `Unknown`, an empty list gives `DoesNotMeet`, and each of these injects the card. |

## Left out

- HTTP (`fetch`, its headers, `response.json()`, the URL built from `rootURL`, lines 1-24) is not modelled. Its result is the input `Schedule.Payload`: `FetchFailed`, `NotAnArray`, or an array of groups that may be null.
- `console.error` logging is not modelled because it has no effect on the outcome.
- The async/await sequencing is not modelled: there is one suspension point and no concurrency, so `main` is a sequential method.
- The host-page lookups by id and class index (lines 62-65, 172-175) are not modelled. The host element is a parameter that must be a valid node. The TypeError that a missing element would raise is not modelled.
- CSS values other than `transform` (lines 69-71, 100-105, 122-131, 150-156) are not modelled: they do not affect structure or behaviour.
- The back face's `innerHTML` template and its form URL (lines 117-121) are not modelled. The back is a node with no children.
- `Dom.Tree` records only element names, class lists and children. Other attributes, text content and inline styles are not part of the structural value, so `Dom.Node.Clone` states only that these parts are copied.
- Parent pointers are not modelled. `appendChild` detaches a node from its old parent only in the one place where the code appends a node that has one: the first-child move loop, via `Dom.Node.AppendFirstChildOf`.
- The card lookup `cardContainer.querySelector('.card')` (line 177) is modelled as the container's first child. In document order the card is the container's first descendant, and it carries the class `card`.
- Event delivery is not modelled: bubbling of `mouseover`/`mouseout` from the card's descendants, and `addEventListener` (the registered listeners are the code of `Card.Dispatch`). Each delivered event is one call of `Dispatch`.
- The commented-out SquareSpace variants (lines 76-81, 183-188) are not modelled because they are dead code.
- Regular expressions in general are not modelled, nor are Unicode case folding or Unicode word characters. Without the `u` flag the pattern folds only ASCII letters and `\w` is `[A-Za-z0-9_]`, and the model does exactly that.
- Weekday.ExecFrom: does not state which spelling is reported when several succeed at the leftmost position. `Weekday.TryAt` states that preference order, and only whether a match exists affects the script.
- The matcher's running time is not modelled. The pattern has no nested quantifiers, so it matches in linear time.
