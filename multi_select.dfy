/**
 * The multi-select box: the selected values are a list the component hands
 * back through `onChange`; `toggle`, `clearOne` and `clearAll` compute the new
 * list, and the chips, the overflow badge and the trigger label are read off
 * the options the selected values name.
 */
module MultiSelect {
  import opened Wrappers
  import opened JsString
  import opened Lists

  /** An option of the box; `caption` is its `label`. */
  datatype SelectOption = SelectOption(value: string, caption: string, hint: Option<string>)

  /** How many chips are shown by default. */
  const DefaultMaxBadges: nat := 4

  const DefaultPlaceholder: string := "Selecciona…"

  function IsNot(v: string): string -> bool {
    x => x != v
  }

  /** `value.filter(v => v !== val)`: every occurrence of `val` dropped, the rest in order. */
  function ClearOne(value: seq<string>, val: string): (r: seq<string>)
    ensures val !in r
    ensures forall x :: x != val ==> (x in r <==> x in value)
    ensures IsSubsequence(r, value)
    ensures forall x :: x != val ==> multiset(r)[x] == multiset(value)[x]
  {
    FilterIsSubsequence(value, IsNot(val));
    FilterCounts(value, IsNot(val));
    FilterMembers(value, IsNot(val));
    Filter(value, IsNot(val))
  }

  /** `clearAll`: nothing selected. */
  function ClearAll(): (r: seq<string>)
    ensures |r| == 0
  {
    []
  }

  /** `toggle(val)`: a selected value is cleared everywhere; any other is appended at the end. */
  function Toggle(value: seq<string>, val: string): (r: seq<string>)
    ensures val in value ==> r == ClearOne(value, val)
    ensures val !in value ==> |r| == |value| + 1 && r[..|value|] == value && r[|value|] == val
    ensures val in r <==> val !in value
    ensures forall x :: x != val ==> (x in r <==> x in value)
  {
    if val in value then ClearOne(value, val) else value + [val]
  }

  /** Toggling a value that is not selected, and toggling it again, gives the list back. */
  lemma ToggleTwice(value: seq<string>, val: string)
    requires val !in value
    ensures Toggle(Toggle(value, val), val) == value
  {
    var once := value + [val];
    assert val in once;
    assert once == value + [val];
    FilterAppendRejected(value, IsNot(val), val);
    FilterAll(value, IsNot(val));
  }

  /** An element the filter rejects, appended at the end, is dropped again. */
  lemma {:induction false} FilterAppendRejected<T>(s: seq<T>, f: T -> bool, x: T)
    requires !f(x)
    ensures Filter(s + [x], f) == Filter(s, f)
    decreases |s|
  {
    if |s| == 0 {
      assert Filter([x], f) == [] + Filter([x][1..], f);
    } else {
      assert (s + [x])[1..] == s[1..] + [x];
      FilterAppendRejected(s[1..], f, x);
    }
  }

  /**
   * `map.get(v)` on `new Map(options.map(o => [o.value, o]))`: the option
   * with that value; when several share it, the last one wins.
   */
  function LookupOption(options: seq<SelectOption>, v: string): (r: Option<SelectOption>)
    ensures r.None? <==> forall i :: 0 <= i < |options| ==> options[i].value != v
    ensures r.Some? ==> exists i :: 0 <= i < |options| && options[i] == r.value && r.value.value == v
                          && forall j :: i < j < |options| ==> options[j].value != v
    decreases |options|
  {
    if |options| == 0 then None
    else if options[|options| - 1].value == v then Some(options[|options| - 1])
    else
      var init := options[..|options| - 1];
      var r := LookupOption(init, v);
      assert r.Some? ==> exists i :: 0 <= i < |options| && options[i] == r.value && r.value.value == v
                           && forall j :: i < j < |options| ==> options[j].value != v by {
        if r.Some? {
          var i :| 0 <= i < |init| && init[i] == r.value && r.value.value == v
                   && forall j :: i < j < |init| ==> init[j].value != v;
          assert options[i] == init[i];
          forall j | i < j < |options| ensures options[j].value != v {
            if j < |init| { assert options[j] == init[j]; }
          }
        }
      }
      assert r.None? ==> forall i :: 0 <= i < |options| ==> options[i].value != v by {
        if r.None? {
          forall i | 0 <= i < |options| ensures options[i].value != v {
            if i < |init| { assert options[i] == init[i]; }
          }
        }
      }
      r
  }

  function HasOption(options: seq<SelectOption>): string -> bool {
    v => LookupOption(options, v).Some?
  }

  function Values(os: seq<SelectOption>): seq<string> {
    seq(|os|, i requires 0 <= i < |os| => os[i].value)
  }

  /** `selected`: the option of each selected value, in the order of `value`; values without an option are dropped. */
  function Selected(options: seq<SelectOption>, value: seq<string>): (r: seq<SelectOption>)
    ensures |r| <= |value|
    ensures forall k :: 0 <= k < |r| ==> Some(r[k]) == LookupOption(options, r[k].value)
    decreases |value|
  {
    if |value| == 0 then []
    else
      match LookupOption(options, value[0])
      case Some(o) => [o] + Selected(options, value[1..])
      case None => Selected(options, value[1..])
  }

  /** The selected chips name exactly the selected values that have an option, in order and with repeats. */
  lemma {:induction false} SelectedValues(options: seq<SelectOption>, value: seq<string>)
    ensures Values(Selected(options, value)) == Filter(value, HasOption(options))
    decreases |value|
  {
    if |value| > 0 {
      SelectedValues(options, value[1..]);
      var rest := Selected(options, value[1..]);
      var look := LookupOption(options, value[0]);
      assert Filter(value, HasOption(options))
          == (if look.Some? then [value[0]] else []) + Filter(value[1..], HasOption(options));
      if look.Some? {
        assert Selected(options, value) == [look.value] + rest;
        ValuesCons(look.value, rest);
      }
    }
  }

  lemma ValuesCons(o: SelectOption, rest: seq<SelectOption>)
    ensures Values([o] + rest) == [o.value] + Values(rest)
  {
    assert forall i :: 0 < i <= |rest| ==> ([o] + rest)[i] == rest[i - 1];
  }

  /** `selected.slice(0, maxBadges)`: the chips shown. */
  function VisibleBadges(selected: seq<SelectOption>, maxBadges: nat): (r: seq<SelectOption>)
    ensures |r| == if |selected| < maxBadges then |selected| else maxBadges
    ensures r == selected[..|r|]
  {
    if |selected| <= maxBadges then selected else selected[..maxBadges]
  }

  /** The `+n` badge, present only when more options are selected than chips are shown. */
  function Overflow(count: nat, maxBadges: nat): (r: Option<string>)
    ensures r.Some? <==> count > maxBadges
  {
    if count > maxBadges then Some("+" + NatText(count - maxBadges)) else None
  }

  /** Every selected option is either a chip or counted in the `+n` badge. */
  lemma BadgesAccountForAll(selected: seq<SelectOption>, maxBadges: nat)
    ensures |VisibleBadges(selected, maxBadges)| + (if |selected| > maxBadges then |selected| - maxBadges else 0) == |selected|
    ensures Overflow(|selected|, maxBadges).Some? ==>
              Overflow(|selected|, maxBadges).value == "+" + NatText(|selected| - |VisibleBadges(selected, maxBadges)|)
  {
  }

  /** The "Limpiar" button is shown when something is selected. */
  predicate ShowsClear(count: nat) {
    count > 0
  }

  /**
   * With the default placeholder the "Limpiar" button is shown exactly when
   * the trigger shows a count, and clearing everything hides it.
   */
  lemma ClearShownWithCount(count: nat)
    ensures ShowsClear(count) <==> TriggerLabel(count, DefaultPlaceholder) != DefaultPlaceholder
    ensures !ShowsClear(|ClearAll()|)
  {
    DefaultTriggerLabel(count);
  }

  /** The trigger reads the placeholder with nothing selected, else "`n` seleccionado(s)". */
  function TriggerLabel(count: nat, placeholder: string): (r: string)
    ensures count == 0 ==> r == placeholder
    ensures count > 0 ==> StartsWith(r, NatText(count)) && r == NatText(count) + " seleccionado(s)"
  {
    if count == 0 then placeholder else NatText(count) + " seleccionado(s)"
  }

  /** The first character of a number's text is a digit. */
  lemma {:induction false} NatTextStartsWithDigit(n: nat)
    ensures '0' <= NatText(n)[0] <= '9'
    decreases n
  {
    if n >= 10 {
      NatTextStartsWithDigit(n / 10);
    }
  }

  /** With the default placeholder the trigger shows the placeholder exactly when nothing is selected. */
  lemma DefaultTriggerLabel(count: nat)
    ensures TriggerLabel(count, DefaultPlaceholder) == DefaultPlaceholder <==> count == 0
  {
    if count > 0 {
      NatTextStartsWithDigit(count);
      assert TriggerLabel(count, DefaultPlaceholder)[0] == NatText(count)[0];
      assert DefaultPlaceholder[0] == 'S';
    }
  }
}
