/** The demo form's option catalog and default values, and the widget's
    behaviour on them: keyboard navigation from a closed list, appending and
    removing in multiple mode, and re-choosing the current entry in single
    mode. */
module Demo {
  import opened SelectValue
  import opened SelectWidget

  /** The eight entries of the demo form's catalog. */
  const Catalog: seq<SelectOption> := [
    SelectOption("Physiological needs", Number(1)),
    SelectOption("Safety needs", Number(2)),
    SelectOption("Love and social needs", Number(3)),
    SelectOption("Esteem needs", Number(4)),
    SelectOption("Cognitive needs", Number(5)),
    SelectOption("Aesthetic needs", Number(6)),
    SelectOption("Self-actualization", Number(7)),
    SelectOption("Transcendence needs", Number(8))
  ]

  /** The form's default value for the single Select: the first entry. */
  const DefaultOption: Value := SingleValue(Some(Catalog[0]))

  /** The form's default value for the multiple Select: the last entry. */
  const DefaultOptions: Value := MultipleValue([Catalog[7]])

  /** Four ArrowDown presses on a closed widget: the first only opens the
      list, the next three highlight entries 0, 1 and 2. */
  lemma ArrowDownFromClosed()
    ensures var closed := State(false, None, DefaultOption);
      var press := KeyPress(ArrowDown, true);
      && Run(Catalog, closed, [press]) == State(true, None, DefaultOption)
      && Run(Catalog, closed, [press, press]) == State(true, Some(0), DefaultOption)
      && Run(Catalog, closed, [press, press, press]) == State(true, Some(1), DefaultOption)
      && Run(Catalog, closed, [press, press, press, press]) == State(true, Some(2), DefaultOption)
  {
    var closed := State(false, None, DefaultOption);
    var press := KeyPress(ArrowDown, true);
    var open := Next(Catalog, closed, press);
    assert open == State(true, None, DefaultOption);
    ArrowDownPresses(Catalog, open, 1);
    ArrowDownPresses(Catalog, open, 2);
    ArrowDownPresses(Catalog, open, 3);
    assert [press, press] == [press] + Repeat(press, 1);
    assert [press, press, press] == [press] + Repeat(press, 2);
    assert [press, press, press, press] == [press] + Repeat(press, 3);
  }

  /** Multiple mode, open list holding the last entry: clicking "Esteem
      needs" appends it and closes the list; clicking the first badge then
      removes "Transcendence needs" and leaves the list closed. */
  lemma AppendThenRemoveBadge()
    ensures var s0 := State(true, Some(3), DefaultOptions);
      var s1 := Next(Catalog, s0, OptionClick(3));
      var s2 := Next(Catalog, s1, BadgeClick(0));
      && s1 == State(false, None, MultipleValue([Catalog[7], Catalog[3]]))
      && s2 == State(false, None, MultipleValue([Catalog[3]]))
  {
  }

  /** Single mode, open list holding the first entry: choosing that entry
      again changes nothing, not even the open list, and calls no
      `onChange` (`first`); choosing the second entry replaces the value
      and closes the list (`second`). */
  method ReselectCurrent() returns (first: Option<Value>, second: Option<Value>)
    ensures first == None
    ensures second == Some(SingleValue(Some(Catalog[1])))
  {
    var select := new Select(Catalog, DefaultOption);
    select.ClickBody();
    assert select.isOpen && select.highlighted == None;
    select.Hover(0);
    first := select.ClickOption(0);
    assert select.isOpen && select.highlighted == Some(0) && select.value == DefaultOption;
    second := select.ClickOption(1);
    assert !select.isOpen && select.highlighted == None;
  }
}
