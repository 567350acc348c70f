# Background-colour resolution in axe-core, modelled in Dafny

This project models the part of axe-core that finds the single background
colour seen behind an element. It also models two small registries around it.

- **Own background** (`BackgroundColor.SingleNodeBackground`). An element
  whose `background-image` is not `none` has no determinable colour. The
  keyword `transparent` gives (0,0,0,0). Any other colour keeps its channels,
  and its alpha is multiplied by the element's `opacity`.
- **Opacity test** (`BackgroundColor.IsOpaque`). An element is opaque when its
  own background is an image or has alpha exactly 1.
- **Elements behind an element** (`BackgroundColor.GetVisualParents`). The
  method walks up the parent chain from the element. It stops at the first
  element that is opaque and has a non-zero height. It keeps the parents with
  a non-zero height, nearest first.
  - While walking, it sets a flag when an element's `position` is neither
    `static` nor `relative`, or is `relative` with an offset other than `auto`.
  - When the flag is set and the host can hit-test, the list comes from the
    elements at the point just inside the element's top-left corner. The
    result is everything after the element's own position there.
- **The flattened colour** (`BackgroundColor.GetBackgroundColor`).
  - Starting from the element's own colour, the method pushes the colours of
    the elements behind it onto a stack until a fully opaque one is pushed.
  - With no element left, it assumes white under an `HTML` frontier.
  - It gives up (`None`) in three cases: the frontier is not `HTML`, an
    element does not visually contain the target, or an element has an image
    background.
  - The stack is then folded with `flattenColors` from the opaque base
    outward.
  - On the way it records the elements whose background is an image or has a
    non-zero alpha (`bgNodes`).
- **Audit registry** (`AuditRegistry.Audit`). Rules live in a list and are
  replaced or appended by id. Tools live in a map keyed by id. `After` maps
  each rule result through its rule's `after` step.
- **Test engine loader** (`TestEngine.Engine.Load`). It keeps the bundle's
  shared helpers. It indexes every `any`, `all` and `none` check of every rule
  by check id, and a later check with the same id wins.

Modelling choices:

- The document is a `Dom.Page`. Elements are numbers in document order, so a
  parent's number is smaller than its child's (`Dom.WellFormed`). This makes
  every parent chain finite.
- Computed styles arrive already parsed (`Dom.Style`):
  - the keyword-valued properties are datatypes (`NoImage`, `Static`,
    `Relative`, `Auto`), and the other alternatives carry the remaining text;
  - a parsed style never puts a keyword text in the catch-all alternative:
    `Image` never holds `none`, `OtherPosition` never holds `static` or
    `relative`, and `Length` never holds `auto`, so each value compares as
    the source's string comparison would;
  - the height is the integer `parseInt` gives.
- The host's queries are fields of the page: `tagName`, `visuallyContains`
  and `elementsFromPoint` are functions, and `supportsElementsFromPoint` is a
  boolean.
- `flattenColors` is a parameter, and so is each rule's `after` step.
- Alpha and opacity are real numbers, and the source's exact comparisons with
  0 and 1 are kept.
- The element's bounding rectangle is an input. The hit-test point is
  `Ceil(left + 1)`, `Ceil(top + 1)`.
- `bgNodes` is returned as the sequence of elements the call appends. A
  caller that passes no array ignores it.

Each method is proved against a specification function:

- `GetVisualParents` against `VisualParents`;
- `GetBackgroundColor` against `Resolve`;
- `Audit.AddRule` against `Registered`;
- `Engine.Load` against `Index(AllChecks(...))`.

The lemmas then state what the source promises about those functions. The
colour walk `Gather` recurses one element at a time. It is also shown equal
to a closed-form description (`GatherOutcome`), which first counts how many
leading elements the walk passes through and then decides the outcome from
the next element. That count and the layer and record lists it uses are
small recursive helpers.

Some behaviours of the code worth knowing:

- The flow-order walk stops at the first opaque element with a non-zero
  height. It does not continue to the root.
- An element whose colour has alpha 0 is not recorded in `bgNodes`.
- When the element is missing from a non-empty hit-test list, the whole list
  is used, because `indexOf` gives -1.
- When the element is last in the hit-test list, the flow-order list is kept.
- An `opacity` outside [0, 1] is not rejected.

## Model

| member | source | states |
|---|---|---|
| `BackgroundColor.SingleNodeBackgroundCases` | lib/commons/color/get-background-color.js:9-30 | an image background gives `None` whatever the colour and opacity (and only an image does); `transparent` gives (0,0,0,0); a parsed colour keeps its channels and has its alpha multiplied by the opacity |
| `BackgroundColor.IsOpaqueFromStyle` | lib/commons/color/get-background-color.js:37-43 | an element is opaque exactly when its background is an image, or a parsed colour whose alpha times the opacity is exactly 1 |
| `BackgroundColor.GetVisualParents` | lib/commons/color/get-background-color.js:53-96 | the walk loop and the hit-test step compute exactly `VisualParents`, the flow-order list or its hit-test replacement |
| `BackgroundColor.WalkFromReached` | lib/commons/color/get-background-color.js:63-84 | the flow-order list is the ancestors the walk moves to (up to and including the first that stops it, or up to the root), filtered to those with a non-zero height |
| `BackgroundColor.WalkFromFlag` | lib/commons/color/get-background-color.js:63-76 | the ambiguity flag is set exactly when some element the walk leaves (one before the stop) has a position other than static/relative, or relative with an offset not `auto`; it is never cleared |
| `BackgroundColor.StopIndexFirst` | lib/commons/color/get-background-color.js:63 | the walk leaves every element before the stop position and stops at the element there, which is opaque with a non-zero height |
| `BackgroundColor.FlowOrderAncestors` | lib/commons/color/get-background-color.js:63-83 | every element of the flow-order list is a proper ancestor of the element, has a non-zero height, and the list is nearest first |
| `BackgroundColor.FlowOrderComplete` | lib/commons/color/get-background-color.js:63-83 | every ancestor up to the stop with a non-zero height is in the flow-order list, and when the walk stops at an ancestor that ancestor is the list's last entry |
| `BackgroundColor.IndexOf` | lib/commons/color/get-background-color.js:90 | `indexOf`: -1 exactly when the element is absent, otherwise a position holding it with no earlier occurrence |
| `Dom.Ceil` | lib/commons/color/get-background-color.js:87-89 | `Math.ceil`: the least integer not below its argument |
| `BackgroundColor.VisualParentsChoice` | lib/commons/color/get-background-color.js:86-95 | without ambiguity or hit-testing, or when the host gives no list, the flow-order list is used; with a hit-test list holding the element before its last position the result is everything after its first occurrence; without the element in a non-empty list it is the whole list; otherwise the flow-order list |
| `BackgroundColor.Gather` | lib/commons/color/get-background-color.js:126-157 | a completed colour stack starts with the stack given and ends with a fully opaque layer |
| `BackgroundColor.GatherAgrees` | lib/commons/color/get-background-color.js:126-157 | the colour-stack loop agrees with its description by the number `k` of leading elements it passes through (containing the target, colour not fully opaque): give up or assume white when they run out, give up on the next element if it does not contain the target or is an image, and otherwise close the stack with its opaque colour |
| `BackgroundColor.LeadingPassesFirst` | lib/commons/color/get-background-color.js:139-150 | every element before position `k` is passed through and the element at `k` is not |
| `BackgroundColor.FlattenOntoSnoc` | lib/commons/color/get-background-color.js:159-165 | popping the layer nearest the base and flattening it onto the accumulated colour leaves the right fold unchanged |
| `BackgroundColor.GetBackgroundColor` | lib/commons/color/get-background-color.js:106-166 | both loops together compute exactly `Resolve`: the right fold of the colour stack or `None`, and the elements recorded in `bgNodes` |
| `BackgroundColor.BackgroundColorOwn` | lib/commons/color/get-background-color.js:109-115 | an image background gives `None` and a fully opaque own colour is returned unblended, in both cases with no walk and only the element recorded |
| `BackgroundColor.BackgroundColorBlended` | lib/commons/color/get-background-color.js:110-165 | for a translucent element: the colour is undetermined exactly in the three give-up cases; a determined colour is the fold of the element's layer and the passed layers onto white or the next element's opaque colour; `bgNodes` is the element (alpha non-zero), the contributing passed elements in visit order, then the next element when it contains the target |
| `BackgroundColor.FlattenOntoOpaque` | lib/commons/color/get-background-color.js:159-165 | under the source-over alpha rule, folding any layers onto a fully opaque base gives alpha 1 |
| `BackgroundColor.BackgroundColorOpaque` | lib/commons/color/get-background-color.js:126-165 | under the source-over alpha rule, every determined background colour has alpha 1 |
| `Dom.Ancestry` | lib/commons/color/get-background-color.js:77 | the parent chain starts at the element and ends at an element with no parent |
| `AuditRegistry.Audit.constructor` | lib/core/base/audit.js:6-12 | a new audit keeps the reporter and has no rules and no tools |
| `AuditRegistry.Audit.AddRule` | lib/core/base/audit.js:18-31 | the search loop and the replace-or-push leave the rules equal to `Registered(old rules, spec)`; tools and reporter unchanged |
| `AuditRegistry.RegisteredReplaces` | lib/core/base/audit.js:22-28 | when rule `i` is the first with the id, it alone is replaced by the new rule; the length and all other entries are unchanged |
| `AuditRegistry.RegisteredAppends` | lib/core/base/audit.js:30 | with no rule of the id, the new rule is appended after the untouched existing ones |
| `AuditRegistry.RegisteredIds` | lib/core/base/audit.js:18-31 | the ids after registering are the ids before plus `spec.id` |
| `AuditRegistry.RegisteredUnique` | lib/core/base/audit.js:18-31 | ids unique before stay unique after, and `spec.id` is present |
| `AuditRegistry.Audit.AddTool` | lib/core/base/audit.js:37-40 | the key set gains `spec.id`, whose tool is the new one (overwriting any earlier one); every other key keeps its tool; rules and reporter unchanged |
| `AuditRegistry.FirstWithId` | lib/core/base/audit.js:74 | the position of the first rule with the id: no earlier rule has it, and it is within the list exactly when some rule has it |
| `AuditRegistry.FindBy` | lib/core/base/audit.js:74 | the lookup finds a rule exactly when some rule has the id, and the rule found has it |
| `AuditRegistry.Audit.After` | lib/core/base/audit.js:68-78 | defined exactly when every result names a rule; then one output per result, in order, each the `after` step of the rule with the result's id |
| `AuditRegistry.MapAfter` | lib/core/base/audit.js:73-77 | the `map` over the results: defined exactly when every result names a rule, one output per result in order |
| `TestEngine.Engine.constructor` | build/test/engine.js:2 | before loading, neither the checks nor the shared helpers are defined |
| `TestEngine.Engine.Load` | build/test/engine.js:4-12 | after loading, the shared helpers are the bundle's and the checks are the index of all checks, rule by rule, `any` then `all` then `none` |
| `TestEngine.AllChecksMember` | build/test/engine.js:6-8 | a check is among all checks exactly when some rule lists it in `any`, `all` or `none` |
| `TestEngine.IndexKeys` | build/test/engine.js:6-11 | the index's keys are exactly the ids of the checks |
| `TestEngine.IndexLastWins` | build/test/engine.js:6-8 | the check stored under an id is the last check with that id |
| `TestEngine.IndexStoresOwnId` | build/test/engine.js:6-8 | every stored check is one of the checks and is stored under its own id |
| `TestEngine.IndexHasEveryCheck` | build/test/engine.js:6-8 | every check of every rule has an entry under its id |

## Left out

- `node.scrollIntoView()` and `getBoundingClientRect()`: viewport side effects. The rectangle is an input.
- `getComputedStyle`, `parseInt` of the height and `parseRgbString`: host and library parsing. Styles arrive parsed. A height that does not parse (NaN) compares non-zero in both places the walk tests it, so any non-zero height stands for it.
- The internals of `color.flattenColors`, `dom.visuallyContains`, `dom.elementsFromPoint` and `dom.supportsElementsFromPoint` are not part of this model. They are uninterpreted parameters or page fields, and any rounding inside them goes with them.
- The source-over alpha rule for `flattenColors` (`OverAlpha`) is an assumption of `BackgroundColorOpaque` and `FlattenOntoOpaque`. It is not verified behaviour.
- IEEE floating point: alpha and opacity are exact reals.
- Element identity is the element's number. The `bgNodes` array the caller passes is modelled as the sequence the call appends to it, not as a shared array updated in place.
- `Audit.prototype.run` (lib/core/base/audit.js:49-61): an asynchronous queue of deferred rule runs, and `utils.ruleShouldRun` is not part of this model.
- The bodies of `Rule`, `Tool` and each rule's `after` are not part of this model. A rule or tool is its specification (with the specification's id), and `after` is a parameter.
- `utils.findBy` is not part of this model. It is modelled as the first rule with the id.
- `After` returns `None` where the source calls `after` on `undefined` and throws.
- build/configure.js (build tooling over file I/O and templates) and test/unit/export.js (a check that a global exists) are not part of this model.
