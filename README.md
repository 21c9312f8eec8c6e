# Collapsible sections for Trilium's text editor, in Dafny

`trilium-collapsible.js` is a widget for Trilium Notes. It lets a reader fold
parts of a note's text away. Headers `h2`..`h6` can be made *collapsible*.
Clicking near the left edge of such a header collapses or expands its section:
every later sibling indented deeper than the header, up to the first element
that is not. Clicking the bullet of a list item that holds a nested list folds
that sub-list.

The widget keeps all of its state inside each element's inline `style`
attribute. It stores boolean *markers* as comment sentinels such as
`/*▼hidden▼*/`, which the browser ignores but CSS attribute selectors can see.
There are five markers: collapsible, collapsed, list-collapsed, hidden and
error.

A section is collapsed in two steps:

- Add `hidden` to every element of the section.
- Insert a `[Hidden Section]` placeholder paragraph marked `hidden` and
  `error`. It shows up, and can be clicked to repair the document, if the
  header of a collapsed section is deleted.

This project models that logic and proves properties of it:

- `Indent`: reading an element's indentation (`margin-left:<n>px`) out of its
  style.
- `Markers`: the marker codec. It has `toggleMarker`, `addMarker` and
  `removeMarker` as string functions, and a token model of a "decorated"
  style: plain characters and markers. The codec is proved against that model.
- `Selectors`: the selector tables built at start-up. These are the
  attribute selectors `[style*="margin-left:<40k>px"]` for an element, its
  child, or a list's grandchild paragraph. The module also covers the slices
  of those tables that the walk uses, modelled with JavaScript's
  truncating `/` and negative `slice` start.
- `Walker`: the forward walk of `toggleSectionVisibility` over the siblings
  after a header. It classifies each sibling into group 1, 2 or 3, or as an
  image or an unhandled element. It handles already-hidden elements, the
  subsection guard of a nested collapsed header, and the empty-list stop. It
  collects the targets.
- `Toggle`: marking and unmarking the collected elements. This is done
  element by element. The source's collection-wide write is kept as
  `ApplyAsWritten` for the finding below.
- `Document`: the effect of one section toggle on the document. Collapsing
  inserts the placeholder and marks the targets. Expanding unmarks them and
  removes the start element if it is an error element.
- `Handlers`: the four user actions.
  - A click on a collapsible header.
  - A click on a leftover hidden element, which repairs the document.
  - The toolbar button that makes a header collapsible.
  - A click on a list bullet.
- `Editing`: an `Editor` class. Its fields (element tree, styles,
  `contenteditable` attributes, next element id) are updated in place by one
  method per action. Each method is proved to reach exactly the state the
  corresponding function describes, and to keep every element id fresh.

The document is a tree of `Dom.Node` values. A node has:

- an id, which is the key of its inline style in the style map; a missing
  key means the element has no `style` attribute;
- a tag;
- the classes the widget tests for;
- a `shown` flag, jQuery's `:not(:hidden)`, which the model takes as input
  rather than derives from styles;
- a `fillerOnly` flag, true when its content is exactly CKEditor's filler
  `<br>`;
- its children.

A click is given as the path to the element it lands on. The handler
receives a flag saying whether the click falls in the area that the handler
measures against the element's bounding box.

## Model

| member | source | states |
|---|---|---|
| JsStrings.IndexOfSpec | trilium-collapsible.js:373 | `indexOf` finds the first occurrence of the pattern, and only fails when there is none |
| JsStrings.RemoveAll | trilium-collapsible.js:773 | `replaceAll` never lengthens a style, and strictly shortens one that includes the pattern |
| JsStrings.RemoveAllUnchangedIff | trilium-collapsible.js:772 | `replaceAll` of a sentinel leaves a style unchanged exactly when the sentinel does not occur in it |
| JsStrings.InsertBeforeLast | trilium-collapsible.js:780 | `slice(0, -1) + x + slice(-1)` is one `x` longer, keeps every character but the last in place and keeps the last one last |
| JsStrings.InsertBeforeLastOccurs | trilium-collapsible.js:780 | the inserted text sits right before the last character (at 0 for an empty style) |
| JsStrings.ParseIntToString | trilium-collapsible.js:383-385 | the number check and `Number` read the decimal form of any integer back as that integer |
| Indent.GetIndentValue | trilium-collapsible.js:368-386 | a non-zero indentation is only ever read from a style that holds `margin-left:` |
| Indent.GetIndentValueFallbacks | trilium-collapsible.js:373-374 | a style with no occurrence of `margin-left:` at any position reads as 0 |
| Indent.GetIndentValueNoPx | trilium-collapsible.js:376-378 | with no `px` anywhere after the first `margin-left:`, the style reads as 0 |
| Indent.GetIndentValueReads | trilium-collapsible.js:373-385 | with the first `margin-left:` at i and the first `px` after it at k, the style reads as the number written between them, or 0 when that text is not a number |
| Indent.GetIndentValueOfMarginText | trilium-collapsible.js:368-386 | a style whose first `margin-left:` is followed by `<n>px` reads as n, whatever text comes before or after it |
| Markers.Sentinel | trilium-collapsible.js:59-63 | every sentinel starts with `/*`, ends with `*/` and holds no `/` in between, so it can neither end early nor nest |
| Markers.SentinelsDiffer | trilium-collapsible.js:59-63 | the five sentinels are pairwise different |
| Markers.ToggleMarker | trilium-collapsible.js:765-784 | a present sentinel is removed, making the style shorter; an absent one is added, so the result includes it; a missing style becomes the default first |
| Markers.AddMarker | trilium-collapsible.js:786-798 | the result always includes the sentinel and is exactly one sentinel longer than the (defaulted) style |
| Markers.AddMarkerTwice | trilium-collapsible.js:795 | adding a marker that is already present stores a second copy, so `addMarker` is not idempotent |
| Markers.RemoveMarker | trilium-collapsible.js:800-812 | a style without the sentinel is returned unchanged; one with it becomes shorter (a missing style is first replaced by the default of its element type) |
| Markers.MissingStyleAdd | trilium-collapsible.js:786-798 | `addMarker` on an element without a style gives its type's default (`margin-left:0px;`, `height:auto;` or `background-color:auto;`) carrying that one marker and no other |
| Markers.MissingStyleRemove | trilium-collapsible.js:800-812 | `removeMarker` on an element without a style gives its type's default |
| Markers.IncludesRender | trilium-collapsible.js:771 | in a decorated style the sentinel occurs exactly when the marker is among its tokens |
| Markers.RemoveAllRender | trilium-collapsible.js:773 | removing every sentinel of a marker from a decorated style is dropping that marker's tokens |
| Markers.InsertMarkFacts | trilium-collapsible.js:780 | inserting before the last character adds the marker to the decorated style's marker set and keeps its text |
| Markers.StripFacts | trilium-collapsible.js:773 | stripping a marker removes it from the marker set and keeps the text and the other markers |
| Markers.AddMarkerRender | trilium-collapsible.js:786-798 | `addMarker` on a decorated style renders the style with the marker inserted before the last character |
| Markers.RemoveMarkerRender | trilium-collapsible.js:800-812 | `removeMarker` on a decorated style renders the style with that marker stripped |
| Markers.ToggleMarkerRender | trilium-collapsible.js:765-784 | `toggleMarker` on a decorated style renders the token-level toggle |
| Markers.ToggleTokensFacts | trilium-collapsible.js:771-781 | toggling keeps the text; removes the marker if present, and for `collapsible` also `collapsed`; adds it if absent |
| Markers.ToggleTwice | trilium-collapsible.js:765-784 | toggling an absent marker twice gives the style back (for `collapsible`, when `collapsed` is absent as well) |
| Markers.AddThenRemoveDecorated | trilium-collapsible.js:786-812 | removing a marker just added to a decorated style that lacked it gives the style back |
| Markers.AddThenRemovePlain | trilium-collapsible.js:786-812 | `removeMarker(addMarker(s, m), m) == s` for any style without `/` or `*` |
| Markers.DefaultStyleDecorated | trilium-collapsible.js:788-792 | each default style is a plain decorated style without markers |
| Selectors.BuildTables | trilium-collapsible.js:102-110 | the start-up loop builds, for each level 1..indentLevels, the element, child and list-grandchild selector of indentation 40·level |
| Selectors.IsAppend | trilium-collapsible.js:474-488 | a joined selector list matches exactly when one of its parts does |
| Selectors.Group1Levels | trilium-collapsible.js:474 | for a whole threshold v, an element is in group 1 exactly when it is itself indented at a level deeper than v |
| Selectors.Group2Levels | trilium-collapsible.js:475 | for a whole threshold v, an element is in group 2 exactly when a child of it is indented at a level deeper than v |
| Selectors.Group3Levels | trilium-collapsible.js:476-487 | an element is in group 3 exactly when a list item paragraph below it is indented deeper than v; with lists counted as indented, also at v itself, or, for v = 0, when it is an unindented list |
| Selectors.SubsectionLevels | trilium-collapsible.js:547-554 | under a collapsed header at h, the subsection selectors match exactly the elements indented deeper than h by any of the three conventions |
| Selectors.SliceStart | trilium-collapsible.js:474-476 | a `slice` start always lies inside the table |
| Selectors.SliceMatches | trilium-collapsible.js:474-476 | an element matches a slice exactly when it carries, by its group's convention, an indentation of some level past the slice start |
| Selectors.SliceThreshold | trilium-collapsible.js:462-476 | for a whole non-negative threshold v, group membership means indentation strictly greater than v and at most 40·indentLevels |
| Selectors.SliceAtMinusForty | trilium-collapsible.js:728 | the repair's threshold -40 slices off all but the deepest level |
| Selectors.GrandchildAtDefined | trilium-collapsible.js:486 | `grandchildSelectors[v/40 - 1]` is defined exactly for a whole level inside the table, and is then that level's list selector |
| Walker.Decide | trilium-collapsible.js:495-610 | one iteration adds at most one collection, and while collapsing it never starts the subsection guard |
| Walker.WalkBound | trilium-collapsible.js:495-610 | the loop adds at most one collection per sibling it visits |
| Walker.Targets | trilium-collapsible.js:491-611 | a walk yields at most one collection per sibling from its start on, and none when it starts past the last sibling |
| Walker.CollectTargets | trilium-collapsible.js:491-611 | the loop, with its `continue`s, `break`s and the subsection flag, collects exactly the targets of the walk |
| Walker.CollapseExtract | trilium-collapsible.js:587-592 | what collapsing takes from a list lies below that list |
| Walker.CollapseTakesFirstItem | trilium-collapsible.js:587-592 | collapsing takes from a list only what lies under its first item |
| Walker.HiddenDescendants | trilium-collapsible.js:599 | every element taken from a list when expanding lies below it and carries `hidden` |
| Walker.ExpandTakesAllHidden | trilium-collapsible.js:597-601 | expanding takes from a list every descendant carrying `hidden`, and only those |
| Walker.Marked | trilium-collapsible.js:427 | the elements found by a marker's attribute selector are exactly those carrying it |
| Walker.WalkAccumulates | trilium-collapsible.js:491-611 | targets found before a point are kept in front of those found after it |
| Walker.WalkWithin | trilium-collapsible.js:578-603 | every target lies in the family of a sibling at or after the walk's start that is not already hidden |
| Walker.NoDoubleHiding | trilium-collapsible.js:503-508 | when collapsing, a sibling already hidden that belongs to a group is never a target |
| Walker.AlreadyHiddenSkipped | trilium-collapsible.js:503-508 | while collapsing, an already hidden sibling in a group is passed over: the walk continues after it with the guard and the targets so far unchanged |
| Walker.RunThenBoundary | trilium-collapsible.js:578-609 | a run of group-1 elements followed by an element in no group (neither image nor unhandled) is collected one by one, and the walk stops there |
| Walker.DecidePlain | trilium-collapsible.js:578-579 | a group-1 element contributes itself and does not start a guard |
| Walker.DecideBoundary | trilium-collapsible.js:609 | an element in no group that is neither an image nor unhandled ends the walk |
| Walker.DecideImage | trilium-collapsible.js:602-603 | an image outside every group contributes itself as one target and does not start a guard |
| Walker.OpaquePairStops | trilium-collapsible.js:604-608 | two unhandled elements in a row end the walk before the first of them |
| Walker.OpaqueSingleSkipped | trilium-collapsible.js:604-608 | a single unhandled element adds nothing and the walk continues after it |
| Walker.GuardSkipsRun | trilium-collapsible.js:513-518 | while the subsection guard is active, elements indented strictly deeper than the nested header are passed over |
| Walker.GuardSkipsImage | trilium-collapsible.js:519-523 | while the subsection guard is active, an image is passed over and the guard stays on |
| Walker.GuardEnds | trilium-collapsible.js:513-534 | the guard ends at the first element it does not pass over, and that element is classified exactly as if there had been no guard |
| Walker.EmptyListEndsWalk | trilium-collapsible.js:557-574 | while collapsing with lists counted as indented, an unindented list whose first item is empty ends the walk before it |
| Walker.WalkSkip | trilium-collapsible.js:505-531 | a sibling that contributes nothing and keeps the guard is passed over as if absent |
| Walker.WalkCons | trilium-collapsible.js:578-610 | a sibling that contributes one target puts it in front of what the rest of the walk collects |
| Walker.NestedCollapsedHeader | trilium-collapsible.js:540-555 | when expanding, a nested collapsed header is itself revealed and the deeper run after it stays hidden |
| Walker.ChildrenTakenTogether | trilium-collapsible.js:580-583 | an element indented through its children contributes its children as one collection |
| Walker.ListContribution | trilium-collapsible.js:584-601 | a group-3 list contributes its first-item extract when collapsing and its hidden descendants when expanding |
| Toggle.Flatten | trilium-collapsible.js:622 | the elements the marking loop visits are exactly the members of the targets |
| Toggle.MarkAll | trilium-collapsible.js:622-631 | marking gives a style to every target and to no other element |
| Toggle.MarkAllKeeps | trilium-collapsible.js:622-631 | marking leaves every non-target style as it was |
| Toggle.MarkAllMarks | trilium-collapsible.js:622-631 | after marking, every target carries the marker |
| Toggle.UnmarkAll | trilium-collapsible.js:633-642 | unmarking gives a style to every target and to no other element |
| Toggle.UnmarkAllKeeps | trilium-collapsible.js:633-642 | unmarking leaves every non-target style as it was |
| Toggle.UnmarkAllDecorated | trilium-collapsible.js:633-642 | unmarking a decorated style leaves it decorated, with that marker dropped and every other marker kept |
| Toggle.UnmarkAllClears | trilium-collapsible.js:633-642 | after unmarking, no target carries the marker, and a target carries another marker exactly when it did before |
| Toggle.MarkUnmarkRoundTrip | trilium-collapsible.js:614-646 | collapse then expand over the same elements gives every decorated style without `hidden` back exactly |
| Toggle.RoundTripPlain | trilium-collapsible.js:614-646 | collapse then expand gives back every plain style |
| Toggle.UnmarkAllRestores | trilium-collapsible.js:633-642 | unmarking a style that strips to a decorated style without the marker gives that style back |
| Toggle.RemoveRestores | trilium-collapsible.js:800-812 | `removeMarker` gives back the decorated style any number of that marker's sentinels were inserted into |
| Toggle.WriteAll | trilium-collapsible.js:630 | `attr('style', s)` on a collection gives every member `s` and no other element a new style |
| Toggle.CollectionType | trilium-collapsible.js:623-625 | on a one-element collection the element type is that element's |
| Toggle.ApplyAsWritten | trilium-collapsible.js:622-642 | the source's loop writes a style for every member of every collection and leaves every other style as it was |
| Toggle.AsWrittenAgreesOnSingles | trilium-collapsible.js:622-642 | when every target is a single element, the source's loop equals element-by-element marking and unmarking |
| Toggle.AsWrittenPair | trilium-collapsible.js:622-642 | for a two-element collection, collapsing gives the second element the first one's marked style, and expanding gives it the first one's original style instead of its own |
| Toggle.AsWrittenLosesStyle | trilium-collapsible.js:580-642 | a concrete block quote whose second paragraph loses its own style through collapse and expand as written, while element-by-element editing restores both |
| Document.PlaceholderIndent | trilium-collapsible.js:619-620 | the placeholder's style reads as indentation v + 40 |
| Document.PlaceholderDecorated | trilium-collapsible.js:619-620 | the placeholder's style carries exactly `hidden` and `error` |
| Document.TargetsInDocument | trilium-collapsible.js:491-611 | every collected element is in the document |
| Document.Toggled | trilium-collapsible.js:614-646 | a section toggle, marking element by element, keeps every id in use below the next fresh id |
| Document.CollapseFacts | trilium-collapsible.js:613-631 | collapsing a non-empty section inserts exactly one placeholder right before the start element, with style `margin-left:(v+40)px` plus `hidden` and `error`; marks every target, element by element; changes no other style |
| Document.ExpandFacts | trilium-collapsible.js:632-646 | expanding, element by element, removes `hidden` from every target and keeps its other markers; changes no other style; removes the start element exactly when it carries `error` afterwards |
| Document.NoTargetsNoChange | trilium-collapsible.js:613-614 | a walk that collects nothing leaves the document unchanged: no placeholder, no style written |
| Handlers.ClickedHeader | trilium-collapsible.js:685-691 | a click that fires names an element of the document, at the click's own path |
| Handlers.ClickedHeaderInDocument | trilium-collapsible.js:685-691 | the header a firing click toggles is an element of the document |
| Handlers.Flipped | trilium-collapsible.js:693-694 | writing the header's toggled style keeps every id in use below the next fresh id |
| Handlers.HeadingClick | trilium-collapsible.js:685-705 | a header click keeps every id in use below the next fresh id and never changes which elements are editable |
| Handlers.HeadingClickDirection | trilium-collapsible.js:693-695 | the click collapses exactly when the header was not collapsed, and flips only `collapsed` in its style |
| Handlers.ToggleKeepsIndent | trilium-collapsible.js:693-697 | toggling a marker keeps the indentation a header's style reads as, wherever its first `margin-left:` stands after plain text |
| Handlers.WalkAvoids | trilium-collapsible.js:698-699 | a section walk never collects an id found in none of the siblings it starts from |
| Handlers.ToggledKeeps | trilium-collapsible.js:613-646 | a section toggle leaves the style of every element it did not collect as it was |
| Handlers.HeaderUntouched | trilium-collapsible.js:693-699 | after the click the header keeps its toggled style: its own section walk never reaches it |
| Handlers.CursorBlock | trilium-collapsible.js:738-744 | the block the button acts on is an element of the document |
| Handlers.ToggleCollapsibility | trilium-collapsible.js:745-755 | the button leaves the tree and the next fresh id alone, keeps ids fresh and every other element's style; without an `h2`..`h6` under the cursor it changes nothing |
| Handlers.CollapsibilityFacts | trilium-collapsible.js:745-755 | on an `h2`..`h6` the button flips `collapsible`, clearing it clears `collapsed` too, the header is editable exactly when no longer collapsible, and nothing else changes |
| Handlers.CollapsibilityTwice | trilium-collapsible.js:745-755 | pressing the button twice on a plain header gives its style back and leaves it editable |
| Handlers.ErrorElements | trilium-collapsible.js:722-725 | the repair visits exactly the rendered elements carrying `hidden` |
| Handlers.ShownOnly | trilium-collapsible.js:724 | `:not(:hidden)` keeps exactly the rendered elements |
| Handlers.Locate | trilium-collapsible.js:726-730 | a located element is at the returned path and has the id searched for |
| Handlers.RepairOne | trilium-collapsible.js:727-730 | one repair step keeps every id in use below the next fresh id |
| Handlers.RepairAll | trilium-collapsible.js:726-731 | the repair loop keeps every id in use below the next fresh id |
| Handlers.RepairClick | trilium-collapsible.js:713-734 | the repair click keeps every id in use below the next fresh id |
| Handlers.RepairRemovesPlaceholder | trilium-collapsible.js:726-731 | repairing from an orphaned placeholder collects the placeholder itself, unmarks it and removes it (the error element's removal at the end of `toggleSectionVisibility`) |
| Handlers.PlaceholderInGroup | trilium-collapsible.js:619-620 | an orphaned placeholder of a section at v belongs to group 1 for threshold v, the repair's indentation − 40 |
| Handlers.RunMemberCollected | trilium-collapsible.js:578-579 | a walk started at a group-1 element collects that element |
| Handlers.Spans | trilium-collapsible.js:428 | the spans found are exactly the `span` descendants |
| Handlers.ToggleAll | trilium-collapsible.js:439-443 | the span loop gives a style to every span and to no other element |
| Handlers.ToggleAllEach | trilium-collapsible.js:439-443 | toggling distinct spans toggles each once from its own style and touches nothing else |
| Handlers.BulletClick | trilium-collapsible.js:414-456 | a bullet click only restyles: the tree, the editable flags and the next fresh id stay as they were |
| Handlers.BulletMarksSpans | trilium-collapsible.js:437-443 | a click on a bullet with no `list-collapsed` descendant puts the marker on every span below it and changes no other style |
| Handlers.BulletClearsMarks | trilium-collapsible.js:444-449 | a click on a bullet with a `list-collapsed` descendant leaves no decorated descendant carrying it |
| Editing.Editor.constructor | trilium-collapsible.js:102-110 | the selector tables are built once, for the configured number of levels |
| Editing.Editor.MarkTargets | trilium-collapsible.js:622-631 | the marking loop reaches the element-by-element marking of its targets |
| Editing.Editor.UnmarkTargets | trilium-collapsible.js:633-642 | the unmarking loop reaches the element-by-element unmarking |
| Editing.Editor.ToggleSectionVisibility | trilium-collapsible.js:459-647 | the method leaves the document exactly as `Document.Toggled` describes and keeps every id fresh |
| Editing.Editor.HeadingClicked | trilium-collapsible.js:685-705 | the header handler leaves the document as `Handlers.HeadingClick` describes |
| Editing.Editor.FlipCollapsed | trilium-collapsible.js:693-694 | the header's style becomes its `collapsed`-toggled style and nothing else changes |
| Editing.Editor.RepairOne | trilium-collapsible.js:727-730 | one repair iteration expands the section its element starts, with threshold indentation − 40 |
| Editing.Editor.RepairClicked | trilium-collapsible.js:713-734 | the repair loop leaves the document as `Handlers.RepairClick` describes |
| Editing.Editor.ToggleCollapsibility | trilium-collapsible.js:738-763 | the button leaves the document as `Handlers.ToggleCollapsibility` describes |
| Editing.Editor.ToggleEach | trilium-collapsible.js:439-443 | the span loop reaches the toggle of every span in turn |
| Editing.Editor.BulletClicked | trilium-collapsible.js:414-456 | the bullet handler leaves the document as `Handlers.BulletClick` describes |

The toolbar button (trilium-collapsible.js:745-755) clears `collapsible` from a
collapsed header without expanding its section first, so the section stays
hidden. `Handlers.ToggleCollapsibility` models exactly that.

## Left out

- The generated CSS text and its injection into the page
  (trilium-collapsible.js:112-365). Only what each selector matches is
  modelled.
- Event wiring and geometry (`getBoundingClientRect`, `pageX`/`pageY`). Each
  handler takes whether the click falls in its hot area as a boolean
  parameter.
- jQuery's `:hidden` is an input flag on each element, `shown`, taken as it is
  when a handler starts. The model does not recompute it after the handler
  marks elements.
- `updateBackendData`, `setData`, the clean-up of empty bullets,
  `moveCursorToElement` and `getTextNodesIn` (trilium-collapsible.js:389-407,
  649-681). These are calls into the editor's API and cursor placement.
- The configuration labels (trilium-collapsible.js:43-49) are constant
  parameters: `levels` and `considerListsIndented`. The two feature switches
  `doCollapsibleHeaders` and `doCollapsibleLists` are not modelled. Each
  handler is modelled as installed.
- The widget class, the toolbar button's markup and its `setTimeout` retries
  (trilium-collapsible.js:66-73, 815-849).
- The inserted placeholder's text `[Hidden Section]`. The placeholder is a
  `p` with no children.
- `Handlers.CursorBlock`: the `:contains(cursor)` lookup and the text the button
  inserts and removes are not modelled. The element found is the top-level
  block of the container that holds the cursor, which is what `.first()`
  returns for an editor's own content.
- `Indent.GetIndentValue` reads a missing style as `""`, giving 0. In the
  source, `getIndentValue` on an element without a style throws.
- `JsStrings.ParseNumber` accepts only optionally signed decimal digits. It
  leaves out the forms `Number` also accepts: spaces, `+`, fractions,
  exponents, hexadecimal and `Infinity`.
- The selector text that `slice(...).join(', ')` builds for an empty slice,
  with a leading comma. It is modelled as the union of the parts that are
  there, not as a selector jQuery would reject.
- A single click that matches several handlers at once. Each handler is
  modelled alone.
- `Handlers.RepairOne` does nothing for an element that an earlier iteration
  removed from the document. In the source the walk from a detached element
  finds no siblings.
- `Handlers.HeadingClick`: the walk of the click's own section is modelled,
  but no lemma states that expand after collapse restores the whole document.
  The element-by-element round trip is `Toggle.MarkUnmarkRoundTrip`, and the
  placeholder's removal is `Handlers.RepairRemovesPlaceholder`.
- Several editors on one page. The model holds one editor container.
- Document.Toggled: for a target that is a collection of several elements, follows the intended element-by-element edit, not the source's collection-wide write (next line).
- Document.CollapseFacts: for a target that is a collection of several elements, follows the intended element-by-element edit, not the source's collection-wide write (next line).
- Document.ExpandFacts: for a target that is a collection of several elements, follows the intended element-by-element edit, not the source's collection-wide write (next line).
- Editing.Editor.MarkTargets: for a target that is a collection of several elements, follows the intended element-by-element edit, not the source's collection-wide write (next line).
- Editing.Editor.UnmarkTargets: for a target that is a collection of several elements, follows the intended element-by-element edit, not the source's collection-wide write (next line).
- Editing.Editor.ToggleSectionVisibility: for a target that is a collection of several elements, follows the intended element-by-element edit, not the source's collection-wide write (next line).
- Editing.Editor.HeadingClicked: for a target that is a collection of several elements, follows the intended element-by-element edit, not the source's collection-wide write (next line).
- Editing.Editor.RepairClicked: for a target that is a collection of several elements, follows the intended element-by-element edit, not the source's collection-wide write (next line).
- The source's marking loop (trilium-collapsible.js:622-642) reads a collection's first member's style and writes the edited style to all members. A multi-element collection is the children of a group-2 element or a list's extract. That behaviour is modelled only by `Toggle.ApplyAsWritten`. `Toggle.AsWrittenPair` shows that, as written, expanding such a collection does not keep each member's own markers, so `Document.ExpandFacts` does not hold of the source there. For single-element targets the two agree (`Toggle.AsWrittenAgreesOnSingles`).
- `JsStrings.InsertBeforeLast` works on characters (Unicode scalar values), while `slice(0, -1)` works on UTF-16 code units. The two agree on the ASCII styles the widget writes; a style ending in a character outside the Basic Multilingual Plane is not covered.
- Handlers.HeaderUntouched: assumes that no later sibling's subtree reuses the header's id. Element identity is an id here, and the DOM gives that for free.
- Handlers.BulletMarksSpans: assumes the spans below the bullet have distinct ids, for the same reason.
- Walker.NoDoubleHiding: assumes no sibling lies inside another sibling's subtree. Siblings of a DOM tree always meet this, but the model's nodes are values and do not enforce it.
- Handlers.ToggleKeepsIndent: covers styles with text after the `px`, and text before the first `margin-left:` without `/` or `*`. A style ending at `px` would have the marker inserted before the `x`; a `/` or `*` before the margin could be part of a sentinel, which removing a marker would then touch.
- Handlers.RepairRemovesPlaceholder: covers a header indentation v that is a non-negative multiple of 40 with v + 40 at most 40 · indentLevels. A placeholder for a header at the deepest level is not covered.
- Handlers.BulletClearsMarks: speaks of descendants whose styles are decorated, i.e. whose only `/*` and `*/` are the widget's own sentinels.
- Toggle.MarkUnmarkRoundTrip: speaks of decorated styles. A style holding its own CSS comments is not covered.

## Findings

| source | as written | input that shows it | evidently intended | confidence | as-written member | corrected member |
|---|---|---|---|---|---|---|
| trilium-collapsible.js:583-642 | `targetElements.concat(jq)` does not spread a jQuery object, so a block quote's children become one target. The marking loop reads that collection's style from its first member and writes it to all members. | A block quote with paragraphs styled `margin-left:40px;` and `margin-left:40px;text-align:center;`, collapsed then expanded: the second paragraph ends as `margin-left:40px;` | Each collected element gets the marker added to, and removed from, its own style, so collapse then expand restores every style | not executed | Toggle.AsWrittenLosesStyle | Toggle.MarkUnmarkRoundTrip |
