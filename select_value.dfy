/** The values the Select widget works on: the entries it offers, the
    controlled value its parent owns, and the pure computations the widget
    performs on that value when an option is chosen or the value cleared. */
module SelectValue {

  datatype Option<+T> = None | Some(get: T)

  /** The `value` field of an entry, a string or a number. */
  datatype OptionKey = Text(text: string) | Number(number: int)

  /** One entry of the option list: its label (`caption`, since `label` is a Dafny keyword) and a key. */
  datatype SelectOption = SelectOption(caption: string, key: OptionKey)

  /** The discriminant of the widget's props: the `multiple` flag. */
  datatype Mode = Single | Multiple

  /** The controlled value: at most one entry in single mode, an ordered
      list of entries in multiple mode. */
  datatype Value =
    | SingleValue(current: Option<SelectOption>)
    | MultipleValue(selected: seq<SelectOption>)

  function ModeOf(v: Value): Mode
  {
    if v.SingleValue? then Single else Multiple
  }

  predicate NoDuplicates(s: seq<SelectOption>)
  {
    forall i, j :: 0 <= i < j < |s| ==> s[i] != s[j]
  }

  /** `includes`: a scan of the list for an entry equal to `o`. */
  function Includes(s: seq<SelectOption>, o: SelectOption): (r: bool)
    ensures r <==> o in s
  {
    s != [] && (s[0] == o || Includes(s[1..], o))
  }

  /** `isOptionSelected`: whether `o` is drawn as selected. */
  function IsOptionSelected(v: Value, o: SelectOption): (r: bool)
    ensures v.MultipleValue? ==> (r <==> o in v.selected)
    ensures v.SingleValue? ==> (r <==> v.current == Some(o))
  {
    match v
    case MultipleValue(s) => Includes(s, o)
    case SingleValue(c) => c == Some(o)
  }

  /** The list with every occurrence of `x` filtered out, order kept. */
  function Without(s: seq<SelectOption>, x: SelectOption): (r: seq<SelectOption>)
    ensures forall y :: y in r <==> y in s && y != x
    ensures |r| <= |s|
  {
    if s == [] then []
    else if s[0] == x then Without(s[1..], x)
    else [s[0]] + Without(s[1..], x)
  }

  lemma {:induction false} WithoutAbsent(s: seq<SelectOption>, x: SelectOption)
    requires x !in s
    ensures Without(s, x) == s
  {
    if s != [] {
      assert s[0] != x;
      WithoutAbsent(s[1..], x);
    }
  }

  /** Filtering a concatenation filters each part and keeps them in order;
      with the one-entry cases this fixes the order of what remains. */
  lemma {:induction false} WithoutConcat(a: seq<SelectOption>, b: seq<SelectOption>, x: SelectOption)
    ensures Without(a + b, x) == Without(a, x) + Without(b, x)
  {
    if a != [] {
      assert (a + b)[0] == a[0];
      assert (a + b)[1..] == a[1..] + b;
      WithoutConcat(a[1..], b, x);
      if a[0] != x {
        assert Without(a + b, x) == [a[0]] + (Without(a[1..], x) + Without(b, x));
        assert Without(a, x) == [a[0]] + Without(a[1..], x);
      }
    } else {
      assert a + b == b;
    }
  }

  lemma {:induction false} WithoutMultiset(s: seq<SelectOption>, x: SelectOption)
    ensures multiset(Without(s, x)) == multiset(s)[x := 0]
  {
    if s != [] {
      WithoutMultiset(s[1..], x);
      assert s == [s[0]] + s[1..];
    }
  }

  lemma {:induction false} WithoutNoDuplicates(s: seq<SelectOption>, x: SelectOption)
    requires NoDuplicates(s)
    ensures NoDuplicates(Without(s, x))
  {
    if s != [] {
      assert NoDuplicates(s[1..]) by {
        forall i, j | 0 <= i < j < |s[1..]| ensures s[1..][i] != s[1..][j] {
          assert s[1..][i] == s[i + 1] && s[1..][j] == s[j + 1];
        }
      }
      WithoutNoDuplicates(s[1..], x);
      if s[0] != x {
        var tail := Without(s[1..], x);
        assert s[0] !in s[1..] by {
          forall k | 0 <= k < |s[1..]| ensures s[1..][k] != s[0] {
            assert s[1..][k] == s[k + 1];
          }
        }
        assert s[0] !in tail;
        ConsNoDuplicates(s[0], tail);
      }
    }
  }

  lemma ConsNoDuplicates(a: SelectOption, t: seq<SelectOption>)
    requires a !in t && NoDuplicates(t)
    ensures NoDuplicates([a] + t)
  {
  }

  /** Removing an entry from a duplicate-free list drops exactly its one
      position: what a badge click does to the list of badges. */
  lemma {:induction false} WithoutAt(s: seq<SelectOption>, k: nat)
    requires NoDuplicates(s) && k < |s|
    ensures Without(s, s[k]) == s[..k] + s[k + 1..]
  {
    if k == 0 {
      assert s[0] !in s[1..] by {
        forall m | 0 <= m < |s[1..]| ensures s[1..][m] != s[0] {
          assert s[1..][m] == s[m + 1];
        }
      }
      WithoutAbsent(s[1..], s[0]);
    } else {
      var t := s[1..];
      assert NoDuplicates(t) by {
        forall i, j | 0 <= i < j < |t| ensures t[i] != t[j] {
          assert t[i] == s[i + 1] && t[j] == s[j + 1];
        }
      }
      assert t[k - 1] == s[k];
      WithoutAt(t, k - 1);
      assert s[0] != s[k];
      assert s[..k] == [s[0]] + t[..k - 1];
      assert s[k + 1..] == t[k..];
    }
  }

  /** What choosing `o` does to the value: the value afterwards, whether
      `onChange` is called, and whether the choice asks the dropdown to close. */
  datatype Selection = Selection(value: Value, changed: bool, closes: bool)

  /** The value half of `selectOption`. */
  function Selecting(v: Value, o: SelectOption): (r: Selection)
    ensures ModeOf(r.value) == ModeOf(v)
    ensures r.closes <==> !IsOptionSelected(v, o)
    ensures r.changed <==> v.MultipleValue? || !IsOptionSelected(v, o)
    ensures !r.changed ==> r.value == v
    ensures v.SingleValue? ==> IsOptionSelected(r.value, o)
    ensures v.SingleValue? ==> forall p :: p != o ==> !IsOptionSelected(r.value, p)
    ensures v.MultipleValue? ==> (IsOptionSelected(r.value, o) <==> !IsOptionSelected(v, o))
    ensures v.MultipleValue? ==>
      forall p :: p != o ==> (IsOptionSelected(r.value, p) <==> IsOptionSelected(v, p))
    ensures v.MultipleValue? && !IsOptionSelected(v, o) ==> r.value.selected == v.selected + [o]
    ensures v.MultipleValue? && IsOptionSelected(v, o) ==> r.value.selected == Without(v.selected, o)
  {
    match v
    case MultipleValue(s) =>
      if Includes(s, o) then Selection(MultipleValue(Without(s, o)), true, false)
      else Selection(MultipleValue(s + [o]), true, true)
    case SingleValue(c) =>
      if c != Some(o) then Selection(SingleValue(Some(o)), true, true)
      else Selection(v, false, false)
  }

  /** A duplicate-free list of selections stays duplicate-free. */
  lemma SelectingKeepsNoDuplicates(v: Value, o: SelectOption)
    requires v.MultipleValue? && NoDuplicates(v.selected)
    ensures NoDuplicates(Selecting(v, o).value.selected)
  {
    var s := v.selected;
    if o in s {
      WithoutNoDuplicates(s, o);
    } else {
      var u := s + [o];
      forall i, j | 0 <= i < j < |u| ensures u[i] != u[j] {
        if j == |s| {
          assert u[i] == s[i];
        } else {
          assert u[i] == s[i] && u[j] == s[j];
        }
      }
    }
  }

  /** The value `clearOptions` hands to `onChange`. */
  function Cleared(v: Value): (r: Value)
    ensures ModeOf(r) == ModeOf(v)
    ensures forall o :: !IsOptionSelected(r, o)
  {
    match v
    case SingleValue(_) => SingleValue(None)
    case MultipleValue(_) => MultipleValue([])
  }
}
