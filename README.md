# Select widget: interaction state machine

This project models the `Select` dropdown component of a small React demo
form. The component is controlled. Its parent owns the value: one optional
entry in single mode, an ordered list of entries in multiple mode. The
widget owns two pieces of state: whether its list is open (`isOpen`) and
which entry is highlighted (`highlightedIndex`). User events change both.
They are clicks on the container, the clear button, an entry or a badge;
blur; the pointer entering an entry; and Enter, Space, the arrow keys and
Escape. Selecting and clearing hand a new value to `onChange`.

- `select_value.dfy` (module `SelectValue`) holds the data model and the
  pure value computations. These are the filtered list (`Without`), the
  value half of `selectOption` (`Selecting`), `isOptionSelected`
  (`IsOptionSelected`) and the cleared value (`Cleared`).
- `select_widget.dfy` (module `SelectWidget`) holds the state machine.
  `Next` states the outcome of each event declaratively. `Run` folds it
  over a sequence of events. The class `Select` has one method per event.
  Each method applies the handler's setters in the source's order, then
  runs the `[isOpen]` effect, which clears the highlight when `isOpen`
  changed. Each method is proved to end in the state `Next` gives. The
  methods also return what was passed to `onChange`.
- `demo.dfy` (module `Demo`) holds the form's eight-entry catalog and its
  default values. On them it proves keyboard navigation from a closed
  list, an append followed by a badge removal, and re-choosing the current
  entry in single mode. The client method `Demo.ReselectCurrent` uses only
  the class contracts.

How React semantics are modelled:

- Setters inside one handler are applied in order. The handler reads
  `isOpen` and `highlightedIndex` as they were when the event arrived.
  Enter or Space on an open list first toggles `isOpen`. A `setIsOpen(false)`
  from `selectOption` may follow. Either way the list ends closed.
- `stopPropagation` on the clear button, an entry and a badge is modelled
  by not running the body toggle for those clicks.
- The parent passes every `onChange` value straight back as the new
  value, as `src/App.tsx:55-61` does. So an event method updates `value`
  to what it emitted.

Two facts about the code that are easy to miss:

- The highlight is cleared when `isOpen` changes
  (`src/components/Select/Select.tsx:57-59`) and on blur (line 105), never
  when the option list changes. The option list is fixed in the model.
- The first ArrowDown on a closed list only opens it. The second, third
  and fourth presses highlight 0, 1 and 2 (`Demo.ArrowDownFromClosed`).

## Model

| member | source | states |
|---|---|---|
| `SelectValue.Includes` | src/components/Select/Select.tsx:39 | the scan of `includes` finds the entry iff it occurs in the list |
| `SelectValue.IsOptionSelected` | src/components/Select/Select.tsx:53-55 | an entry is drawn as selected iff it occurs in the value (multiple mode) or is the current value (single mode), so in single mode at most one entry is drawn as selected |
| `SelectValue.Without` | src/components/Select/Select.tsx:40 | the filtered list holds exactly the entries of the old list other than the removed one, and is no longer |
| `SelectValue.WithoutConcat` | src/components/Select/Select.tsx:40 | filtering a concatenation is the concatenation of the filtered parts, so the remaining entries keep their order, also in lists with duplicates |
| `SelectValue.WithoutAbsent` | src/components/Select/Select.tsx:39-40 | filtering out an entry that is not in the list returns the list unchanged |
| `SelectValue.WithoutMultiset` | src/components/Select/Select.tsx:40 | filtering keeps every other entry with its multiplicity and drops every occurrence of the removed one |
| `SelectValue.WithoutNoDuplicates` | src/components/Select/Select.tsx:40 | filtering a duplicate-free list leaves it duplicate-free |
| `SelectValue.WithoutAt` | src/components/Select/Select.tsx:112-113 | in a duplicate-free list, removing the entry of badge k removes exactly position k and keeps the order of the rest |
| `SelectValue.Selecting` | src/components/Select/Select.tsx:36-55 | choosing an entry asks to close iff it was not selected. Multiple mode: the entry's membership flips, every other entry's membership is kept, an unselected entry is appended at the end, and a selected one is removed by `Without`, which keeps the order of the rest. Single mode: the entry becomes the only selected one, and `onChange` is called iff it was not already the value. The mode never changes |
| `SelectValue.SelectingKeepsNoDuplicates` | src/components/Select/Select.tsx:39-44 | in multiple mode, choosing any entry keeps a duplicate-free value duplicate-free |
| `SelectValue.Cleared` | src/components/Select/Select.tsx:31-34 | the cleared value keeps the mode and has no entry selected (`[]` or nothing) |
| `SelectWidget.ArrowTarget` | src/components/Select/Select.tsx:78-87 | the candidate is (highlight, or -1 when none) plus or minus 1. It is committed iff it lies in [0, count), otherwise the highlight stays. A valid highlight stays valid |
| `SelectWidget.Closed` | src/components/Select/Select.tsx:57-59 | closing ends closed with the value kept. It clears the highlight iff the list was open, and changes nothing on a closed list |
| `SelectWidget.Chosen` | src/components/Select/Select.tsx:36-51 | a click on an entry or badge gives the value `Selecting` computes. The list stays open iff it was open and the entry was selected. The highlight is cleared iff the open state changed, and is kept otherwise |
| `SelectWidget.Next` | src/components/Select/Select.tsx:57-138 | after any event the highlight is none or a valid index. The mode is kept. Whenever `isOpen` changes the highlight is cleared. The value changes only by clear, entry or badge click, or Enter/Space. Blur ends closed with no highlight. Escape, and Enter/Space on an open list, end closed. Enter/Space on an open list with a highlight gives the `Selecting` value of the highlighted entry. An arrow key or Enter/Space on a closed list gives open, no highlight and the same value. An arrow key on an open list moves the highlight by `ArrowTarget` and keeps the value. Enter/Space on an open list with no highlight ends closed with the value kept. A body click toggles the list and clears the highlight. A hover on entry i highlights i and changes nothing else. An entry or badge click gives `Chosen` of that entry. Clear changes only the value, to `Cleared`. A key whose target is not the container changes nothing |
| `SelectWidget.Run` | src/components/Select/Select.tsx:57-87 | with the option list fixed, every sequence of events keeps the highlight none or a valid index, and keeps the mode |
| `SelectWidget.NextKeepsNoDuplicates` | src/components/Select/Select.tsx:38-44 | no single event puts an entry into a multiple-mode value twice |
| `SelectWidget.RunKeepsNoDuplicates` | src/components/Select/Select.tsx:38-44 | a duplicate-free multiple-mode value stays duplicate-free under any sequence of events |
| `SelectWidget.SelectingKeepsOffered` | src/components/Select/Select.tsx:36-51 | choosing an offered or already-selected entry keeps the value made of offered entries |
| `SelectWidget.RunKeepsOffered` | src/components/Select/Select.tsx:110-138 | a value made of entries of the option list stays so under any sequence of events |
| `SelectWidget.ArrowDownPresses` | src/components/Select/Select.tsx:78-87 | in an open list, n ArrowDown presses move the highlight n steps down from where it was (from -1 when none), stopping at the last entry. The list stays open and the value is kept |
| `SelectWidget.ArrowUpPresses` | src/components/Select/Select.tsx:78-87 | in an open list, n ArrowUp presses move the highlight n steps up, stopping at 0. With no highlight nothing is highlighted. The list stays open and the value is kept |
| `SelectWidget.Select.constructor` | src/components/Select/Select.tsx:27-28 | a mounted widget is closed with no highlight and holds the value it was given |
| `SelectWidget.Select.ResetHighlightOnToggle` | src/components/Select/Select.tsx:57-59 | the highlight is cleared iff `isOpen` differs from its value before the handler |
| `SelectWidget.Select.Choose` | src/components/Select/Select.tsx:36-51 | the new value and the emitted `onChange` argument are those of `Selecting`. The list is closed iff the choice asks to close, otherwise `isOpen` is untouched |
| `SelectWidget.Select.ClickBody` | src/components/Select/Select.tsx:106 | the list toggles and the highlight is cleared, as `Next` states |
| `SelectWidget.Select.Blur` | src/components/Select/Select.tsx:105 | the list is closed and the highlight cleared, as `Next` states |
| `SelectWidget.Select.Hover` | src/components/Select/Select.tsx:137 | the hovered index becomes the highlight and nothing else changes |
| `SelectWidget.Select.ClickClear` | src/components/Select/Select.tsx:31-34 | `onChange` receives the cleared value. `isOpen` and the highlight are untouched |
| `SelectWidget.Select.ClickOption` | src/components/Select/Select.tsx:138 | `onChange` receives the chosen value when `Selecting` changes it. The new state is `Next` of the entry click |
| `SelectWidget.Select.ClickBadge` | src/components/Select/Select.tsx:113 | `onChange` receives the value with the badge's entry removed. The new state is `Next` of the badge click |
| `SelectWidget.Select.KeyDown` | src/components/Select/Select.tsx:62-94 | `onChange` is called only by Enter/Space on an open list with a highlight, with the `Selecting` value of the highlighted entry. The new state is `Next` of the key press. A key whose target is not the container changes nothing |
| `Demo.ArrowDownFromClosed` | src/components/Select/Select.tsx:72-89 | on the catalog of eight entries, presses 1 to 4 of ArrowDown on a closed list give: open with no highlight, then 0, 1 and 2 |
| `Demo.ReselectCurrent` | src/components/Select/Select.tsx:45-50 | on a mounted single-mode widget holding the first entry, re-choosing that entry emits nothing (and, by the class contracts, leaves the list open). Choosing the second entry emits it |
| `Demo.AppendThenRemoveBadge` | src/components/Select/Select.tsx:38-44 | from the default multiple value [Transcendence needs], clicking "Esteem needs" gives [Transcendence needs, Esteem needs] and closes the list. Clicking the first badge then gives [Esteem needs] and the list stays closed |

## Left out

- Rendering: the JSX, the CSS classes and the `show`, `selected` and
  `highlighted` visual states (`src/components/Select/Select.tsx:102-143`).
  They are view-only. `IsOptionSelected` is kept as the predicate the
  `selected` class is drawn from.
- Registering and removing the keydown listener
  (`src/components/Select/Select.tsx:95-100`). This is React/DOM lifecycle
  plumbing.
- The keydown handler's stale `value`. The handler is re-registered only
  when `isOpen`, `highlightedIndex` or `options` change
  (`src/components/Select/Select.tsx:100`), so it reads `value` from the
  render that last registered it. The model gives the handler the current
  value. The two differ whenever the value changes while `isOpen` and the
  highlight both stay the same, and Enter or Space then commits a
  highlight. One ordinary path, with only the container focused: multiple
  mode, value `[e]` with `e` the third entry, list closed. Click the body,
  hover `e`, click `e`, press Enter. In the source the click removes `e`
  without touching `isOpen` or the highlight, so the handler keeps `[e]`,
  and Enter filters `e` out of that old value and emits `[]`. In the model
  Enter adds `e` to the current `[]` and the value ends as `[e]`. The clear
  button and a badge click give the same kind of difference.
- DOM focus, `tabIndex`, and event propagation beyond "this click handler
  runs or the body toggle does not". Focus moving to a button is not
  modelled, so a click on the clear button or a badge causes no blur here.
- Reference identity. The source compares entries with `includes`, `===`
  and `!==` on object references (`src/components/Select/Select.tsx:39`,
  `46`, `54`). The model compares entries as values. The two agree only
  when every entry in `value` is one of the `options` objects itself, that
  is, when the parent hands back the references the widget emitted, and
  distinct entries differ in label or key. The form passes the value
  through an external form library (`src/App.tsx:39-40`, `45`, `55-61`)
  whose copying behaviour is not part of this model. If the parent returns
  copies, the source sees a copy with the same content as a different
  entry. In multiple mode, clicking that entry then appends a duplicate
  and closes the list. In single mode, re-choosing the current entry sets
  it again and closes the list. The model instead removes the entry, or
  does nothing.
- Entry keys that are JavaScript numbers are modelled as integers. Keys
  are only compared, never computed with.
- Events on elements that are not rendered: a hover or click on an entry
  index outside the list, or a badge click in single mode or outside the
  value. The class methods require the element to exist. `Next` treats
  such an event as leaving the state unchanged, so that `Run` is total.
- An options list that changes while mounted. The model fixes it; the code
  resets nothing on such a change.
- All of `src/App.tsx` except the catalog and the default values used in
  `demo.dfy`. That covers the `react-hook-form` wiring, the nickname rule
  (required, at least 3 characters, enforced by an external library), the
  logging submit handler and the `setValue` pass-throughs (modelled only as
  "the emitted value becomes the new value").
