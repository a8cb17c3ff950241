/** The interaction state machine of the Select widget: whether the list is
    open, which entry is highlighted, and how each user event changes them
    and the controlled value.

    `Next` states, event by event, what the widget's state is after the
    event has been handled and the `[isOpen]` effect has run. The class
    `Select` does the same work the way the component does: each event
    method applies the handler's state setters in order and then runs the
    highlight-reset effect, and it is proved to end in the state `Next`
    describes. */
module SelectWidget {
  import opened SelectValue

  /** The `code` of a keyboard event, as far as the handler tells keys apart. */
  datatype Key = Enter | Space | ArrowUp | ArrowDown | Escape | OtherKey

  /** The user events the widget reacts to. */
  datatype Event =
    | BodyClick                             // click on the container itself
    | FocusLost                             // blur of the container
    | MouseEnter(index: nat)                // pointer enters the entry at `index`
    | ClearClick                            // click on the clear button
    | OptionClick(index: nat)               // click on the entry at `index`
    | BadgeClick(position: nat)             // click on the badge at `position` (multiple mode)
    | KeyPress(key: Key, onContainer: bool) // keydown; `onContainer` when its target is the container

  /** Everything the widget's behaviour depends on besides the option list:
      its own `isOpen` and `highlightedIndex`, and the value its parent
      passes in. */
  datatype State = State(isOpen: bool, highlighted: Option<nat>, value: Value)

  /** A highlight, when there is one, is an index into the option list. */
  predicate HighlightValid(options: seq<SelectOption>, h: Option<nat>)
  {
    h.Some? ==> h.get < |options|
  }

  /** Whether the event names an element the widget renders. */
  predicate Rendered(options: seq<SelectOption>, s: State, e: Event)
  {
    match e
    case MouseEnter(i) => i < |options|
    case OptionClick(i) => i < |options|
    case BadgeClick(j) => s.value.MultipleValue? && j < |s.value.selected|
    case _ => true
  }

  predicate IsCommitKey(k: Key)
  {
    k == Enter || k == Space
  }

  predicate IsArrowKey(k: Key)
  {
    k == ArrowUp || k == ArrowDown
  }

  /** Where an arrow key moves the highlight in an open list of `count`
      entries: one step down or up, and nowhere when that step would leave
      the list. With no highlight the step starts from before the first
      entry. */
  function ArrowTarget(count: nat, h: Option<nat>, down: bool): (r: Option<nat>)
    requires h.Some? ==> h.get < count
    ensures r.Some? ==> r.get < count
    ensures var candidate := (if h.Some? then h.get as int else -1) + (if down then 1 else -1);
      r == if 0 <= candidate < count then Some(candidate as nat) else h
  {
    if down then
      match h
      case None => if 0 < count then Some(0) else None
      case Some(i) => if i + 1 < count then Some(i + 1) else h
    else
      match h
      case None => None
      case Some(i) => if 0 < i then Some(i - 1) else h
  }

  /** The state after closing the list: closing an open list resets the
      highlight; a list that is already closed keeps it. */
  function Closed(s: State): (t: State)
    ensures !t.isOpen && t.value == s.value
    ensures t.isOpen != s.isOpen ==> t.highlighted == None
    ensures !s.isOpen ==> t == s
  {
    if s.isOpen then State(false, None, s.value) else s
  }

  /** The state after choosing `o` by a click: the value handed to
      `onChange` replaces the old one, the list closes when the choice asks
      it to, and the body toggle does not run. */
  function Chosen(s: State, o: SelectOption): (t: State)
    ensures t.value == Selecting(s.value, o).value
    ensures t.isOpen <==> s.isOpen && IsOptionSelected(s.value, o)
    ensures t.isOpen != s.isOpen ==> t.highlighted == None
    ensures t.isOpen == s.isOpen ==> t.highlighted == s.highlighted
  {
    var r := Selecting(s.value, o);
    if r.closes then Closed(s.(value := r.value)) else s.(value := r.value)
  }

  /** The state after one event, once every setter of its handler and the
      `[isOpen]` effect have run. An event naming an element that is not
      rendered cannot happen and leaves the state as it is. */
  function Next(options: seq<SelectOption>, s: State, e: Event): (t: State)
    requires HighlightValid(options, s.highlighted)
    ensures HighlightValid(options, t.highlighted)
    ensures ModeOf(t.value) == ModeOf(s.value)
    ensures t.isOpen != s.isOpen ==> t.highlighted == None
    ensures t.value != s.value ==>
      e.ClearClick? || e.OptionClick? || e.BadgeClick? || (e.KeyPress? && IsCommitKey(e.key))
    ensures e.FocusLost? ==> !t.isOpen && t.highlighted == None
    ensures e.KeyPress? && e.onContainer && (e.key == Escape || (IsCommitKey(e.key) && s.isOpen)) ==> !t.isOpen
    ensures e.KeyPress? && !e.onContainer ==> t == s
    ensures e.KeyPress? && e.onContainer && (IsCommitKey(e.key) || IsArrowKey(e.key)) && !s.isOpen ==>
      t == State(true, None, s.value)
    ensures e.KeyPress? && e.onContainer && IsArrowKey(e.key) && s.isOpen ==>
      t.isOpen && t.value == s.value && t.highlighted == ArrowTarget(|options|, s.highlighted, e.key == ArrowDown)
    ensures e.KeyPress? && e.onContainer && IsCommitKey(e.key) && s.isOpen && s.highlighted.Some? ==>
      t.value == Selecting(s.value, options[s.highlighted.get]).value
    ensures e.ClearClick? ==> t == s.(value := Cleared(s.value))
    ensures e.BodyClick? ==> t == State(!s.isOpen, None, s.value)
    ensures e.MouseEnter? && e.index < |options| ==> t == s.(highlighted := Some(e.index))
    ensures e.OptionClick? && e.index < |options| ==> t == Chosen(s, options[e.index])
    ensures e.BadgeClick? && Rendered(options, s, e) ==> t == Chosen(s, s.value.selected[e.position])
    ensures e.KeyPress? && e.onContainer && IsCommitKey(e.key) && s.isOpen && s.highlighted.None? ==>
      t == State(false, None, s.value)
  {
    if !Rendered(options, s, e) then s
    else match e
    case BodyClick => State(!s.isOpen, None, s.value)
    case FocusLost => State(false, None, s.value)
    case MouseEnter(i) => s.(highlighted := Some(i))
    case ClearClick => s.(value := Cleared(s.value))
    case OptionClick(i) => Chosen(s, options[i])
    case BadgeClick(j) => Chosen(s, s.value.selected[j])
    case KeyPress(k, onContainer) =>
      if !onContainer then s
      else if IsCommitKey(k) then
        if !s.isOpen then State(true, None, s.value)
        else
          var v := if s.highlighted.Some? then Selecting(s.value, options[s.highlighted.get]).value else s.value;
          State(false, None, v)
      else if IsArrowKey(k) then
        if !s.isOpen then State(true, None, s.value)
        else
          s.(highlighted := ArrowTarget(|options|, s.highlighted, k == ArrowDown))
      else if k == Escape then Closed(s)
      else s
  }

  /** The state after a sequence of events, with the option list fixed. */
  function Run(options: seq<SelectOption>, s: State, events: seq<Event>): (t: State)
    requires HighlightValid(options, s.highlighted)
    ensures HighlightValid(options, t.highlighted)
    ensures ModeOf(t.value) == ModeOf(s.value)
    decreases |events|
  {
    if events == [] then s else Run(options, Next(options, s, events[0]), events[1..])
  }

  /** One event keeps a duplicate-free list of selections duplicate-free. */
  lemma NextKeepsNoDuplicates(options: seq<SelectOption>, s: State, e: Event)
    requires HighlightValid(options, s.highlighted)
    requires s.value.MultipleValue? && NoDuplicates(s.value.selected)
    ensures NoDuplicates(Next(options, s, e).value.selected)
  {
    if Rendered(options, s, e) {
      match e
      case OptionClick(i) => SelectingKeepsNoDuplicates(s.value, options[i]);
      case BadgeClick(j) => SelectingKeepsNoDuplicates(s.value, s.value.selected[j]);
      case KeyPress(k, _) =>
        if s.highlighted.Some? {
          SelectingKeepsNoDuplicates(s.value, options[s.highlighted.get]);
        }
      case _ =>
    }
  }

  /** In multiple mode no sequence of events puts an entry in the value twice. */
  lemma {:induction false} RunKeepsNoDuplicates(options: seq<SelectOption>, s: State, events: seq<Event>)
    requires HighlightValid(options, s.highlighted)
    requires s.value.MultipleValue? && NoDuplicates(s.value.selected)
    ensures NoDuplicates(Run(options, s, events).value.selected)
    decreases |events|
  {
    if events != [] {
      NextKeepsNoDuplicates(options, s, events[0]);
      RunKeepsNoDuplicates(options, Next(options, s, events[0]), events[1..]);
    }
  }

  /** The value holds only entries of the option list. */
  predicate Offered(options: seq<SelectOption>, v: Value)
  {
    match v
    case SingleValue(c) => c.Some? ==> c.get in options
    case MultipleValue(s) => forall x :: x in s ==> x in options
  }

  lemma SelectingKeepsOffered(options: seq<SelectOption>, v: Value, o: SelectOption)
    requires Offered(options, v)
    requires o in options || IsOptionSelected(v, o)
    ensures Offered(options, Selecting(v, o).value)
  {
  }

  /** When the value starts out made of offered entries, every sequence of
      events keeps it so: clicks and the keyboard only ever add entries of
      the list. */
  lemma {:induction false} RunKeepsOffered(options: seq<SelectOption>, s: State, events: seq<Event>)
    requires HighlightValid(options, s.highlighted)
    requires Offered(options, s.value)
    ensures Offered(options, Run(options, s, events).value)
    decreases |events|
  {
    if events != [] {
      var e := events[0];
      if Rendered(options, s, e) {
        match e
        case OptionClick(i) => SelectingKeepsOffered(options, s.value, options[i]);
        case BadgeClick(j) => SelectingKeepsOffered(options, s.value, s.value.selected[j]);
        case KeyPress(k, _) =>
          if s.highlighted.Some? {
            SelectingKeepsOffered(options, s.value, options[s.highlighted.get]);
          }
        case _ =>
      }
      RunKeepsOffered(options, Next(options, s, e), events[1..]);
    }
  }

  /** `n` copies of one event. */
  function Repeat(e: Event, n: nat): (r: seq<Event>)
    ensures |r| == n && forall k :: 0 <= k < n ==> r[k] == e
  {
    seq(n, _ => e)
  }

  function Min(a: int, b: int): int { if a <= b then a else b }

  function Max(a: int, b: int): int { if a <= b then b else a }

  /** Pressing ArrowDown `n` times in an open list walks the highlight down
      one entry per press from where it was (from before the first entry
      when there was none) and stops at the last entry. */
  lemma {:induction false} ArrowDownPresses(options: seq<SelectOption>, s: State, n: nat)
    requires s.isOpen && HighlightValid(options, s.highlighted)
    ensures var t := Run(options, s, Repeat(KeyPress(ArrowDown, true), n));
      var last := Min((if s.highlighted.Some? then s.highlighted.get else -1) + n, |options| - 1);
      t.isOpen && t.value == s.value && t.highlighted == if last < 0 then None else Some(last)
    decreases n
  {
    var press := KeyPress(ArrowDown, true);
    if n > 0 {
      var events := Repeat(press, n);
      assert events[1..] == Repeat(press, n - 1);
      ArrowDownPresses(options, Next(options, s, press), n - 1);
    }
  }

  /** Pressing ArrowUp `n` times in an open list walks the highlight up one
      entry per press and stops at the first entry; with no highlight
      nothing moves. */
  lemma {:induction false} ArrowUpPresses(options: seq<SelectOption>, s: State, n: nat)
    requires s.isOpen && HighlightValid(options, s.highlighted)
    ensures var t := Run(options, s, Repeat(KeyPress(ArrowUp, true), n));
      t.isOpen && t.value == s.value &&
      t.highlighted == if s.highlighted.Some? then Some(Max(s.highlighted.get - n, 0)) else None
    decreases n
  {
    var press := KeyPress(ArrowUp, true);
    if n > 0 {
      var events := Repeat(press, n);
      assert events[1..] == Repeat(press, n - 1);
      ArrowUpPresses(options, Next(options, s, press), n - 1);
    }
  }

  /** One mounted Select: the option list and mode it was rendered with,
      its own interaction state, and the controlled value as its parent
      passes it back after each `onChange`. */
  class Select {
    const options: seq<SelectOption>
    const mode: Mode
    var isOpen: bool
    var highlighted: Option<nat>
    var value: Value

    ghost predicate Valid()
      reads this
    {
      ModeOf(value) == mode && HighlightValid(options, highlighted)
    }

    ghost function Snapshot(): State
      reads this
    {
      State(isOpen, highlighted, value)
    }

    /** A freshly mounted widget: closed, nothing highlighted. */
    constructor (options: seq<SelectOption>, value: Value)
      ensures Valid()
      ensures this.options == options && mode == ModeOf(value)
      ensures Snapshot() == State(false, None, value)
    {
      this.options := options;
      this.mode := ModeOf(value);
      this.isOpen := false;
      this.highlighted := None;
      this.value := value;
    }

    /** The `[isOpen]` effect: after a handler whose setters changed
        `isOpen`, the highlight is cleared. */
    method ResetHighlightOnToggle(wasOpen: bool)
      modifies this`highlighted
      ensures highlighted == if isOpen != wasOpen then None else old(highlighted)
    {
      if isOpen != wasOpen {
        highlighted := None;
      }
    }

    /** `selectOption`: hands the new value to `onChange` (returned in
        `emitted`; the parent feeds it straight back as `value`) and closes
        the list when an entry is added or replaces the current one. */
    method Choose(o: SelectOption) returns (emitted: Option<Value>)
      requires ModeOf(value) == mode
      modifies this`isOpen, this`value
      ensures ModeOf(value) == mode
      ensures var r := Selecting(old(value), o);
        value == r.value &&
        emitted == (if r.changed then Some(r.value) else None) &&
        isOpen == (if r.closes then false else old(isOpen))
    {
      emitted := None;
      if value.MultipleValue? {
        if Includes(value.selected, o) {
          emitted := Some(MultipleValue(Without(value.selected, o)));
        } else {
          emitted := Some(MultipleValue(value.selected + [o]));
          isOpen := false;
        }
      } else if value.current != Some(o) {
        emitted := Some(SingleValue(Some(o)));
        isOpen := false;
      }
      if emitted.Some? {
        value := emitted.get;
      }
    }

    /** Click on the container: toggles the list. */
    method ClickBody()
      requires Valid()
      modifies this
      ensures Valid()
      ensures Snapshot() == Next(options, old(Snapshot()), BodyClick)
    {
      var wasOpen := isOpen;
      isOpen := !isOpen;
      ResetHighlightOnToggle(wasOpen);
    }

    /** Blur of the container: closes the list and clears the highlight. */
    method Blur()
      requires Valid()
      modifies this
      ensures Valid()
      ensures Snapshot() == Next(options, old(Snapshot()), FocusLost)
    {
      var wasOpen := isOpen;
      isOpen := false;
      highlighted := None;
      ResetHighlightOnToggle(wasOpen);
    }

    /** The pointer enters the entry at index `i`. */
    method Hover(i: nat)
      requires Valid() && i < |options|
      modifies this
      ensures Valid()
      ensures Snapshot() == Next(options, old(Snapshot()), MouseEnter(i))
    {
      highlighted := Some(i);
    }

    /** `clearOptions`: empties the value; propagation to the body toggle
        is stopped, so the list stays as it was. */
    method ClickClear() returns (emitted: Value)
      requires Valid()
      modifies this
      ensures Valid()
      ensures emitted == Cleared(old(value))
      ensures Snapshot() == Next(options, old(Snapshot()), ClearClick)
    {
      emitted := if value.MultipleValue? then MultipleValue([]) else SingleValue(None);
      value := emitted;
    }

    /** Click on the entry at index `i`. */
    method ClickOption(i: nat) returns (emitted: Option<Value>)
      requires Valid() && i < |options|
      modifies this
      ensures Valid()
      ensures var r := Selecting(old(value), options[i]);
        emitted == if r.changed then Some(r.value) else None
      ensures Snapshot() == Next(options, old(Snapshot()), OptionClick(i))
    {
      var wasOpen := isOpen;
      emitted := Choose(options[i]);
      ResetHighlightOnToggle(wasOpen);
    }

    /** Click on the badge at `position`: the badge's entry is chosen again,
        which removes it. */
    method ClickBadge(position: nat) returns (emitted: Value)
      requires Valid() && value.MultipleValue? && position < |value.selected|
      modifies this
      ensures Valid()
      ensures emitted == Selecting(old(value), old(value).selected[position]).value
      ensures Snapshot() == Next(options, old(Snapshot()), BadgeClick(position))
    {
      var wasOpen := isOpen;
      var chosen := Choose(value.selected[position]);
      emitted := chosen.get;
      ResetHighlightOnToggle(wasOpen);
    }

    /** The keydown handler. `isOpen` and `highlighted` as read by the
        handler are the values of the render it belongs to, so they are
        taken before any setter runs. */
    method KeyDown(key: Key, onContainer: bool) returns (emitted: Option<Value>)
      requires Valid()
      modifies this
      ensures Valid()
      ensures !onContainer || !IsCommitKey(key) || !old(isOpen) || old(highlighted).None? ==> emitted == None
      ensures onContainer && IsCommitKey(key) && old(isOpen) && old(highlighted).Some? ==>
        var r := Selecting(old(value), options[old(highlighted).get]);
        emitted == if r.changed then Some(r.value) else None
      ensures Snapshot() == Next(options, old(Snapshot()), KeyPress(key, onContainer))
    {
      emitted := None;
      if !onContainer {
        return;
      }
      var wasOpen, wasHighlighted := isOpen, highlighted;
      match key {
        case Enter | Space =>
        isOpen := !isOpen;
        if wasOpen && wasHighlighted.Some? {
          emitted := Choose(options[wasHighlighted.get]);
        }
      case ArrowUp | ArrowDown =>
        if !wasOpen {
          isOpen := true;
        } else {
          var index: int := 0;
          if wasHighlighted.Some? {
            index := wasHighlighted.get;
          } else {
            index := -1;
          }
          var newValue := index + (if key == ArrowDown then 1 else -1);
          if 0 <= newValue < |options| {
            highlighted := Some(newValue);
          }
        }
      case Escape =>
        isOpen := false;
      case OtherKey =>
      }
      ResetHighlightOnToggle(wasOpen);
    }
  }
}
