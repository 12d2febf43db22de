/**
 * The expandable data table: a set of expanded row keys that a chevron button
 * toggles, and the expanded content rendered under a row only while its key
 * is in the set.
 */
module ExpandableTable {
  import opened Wrappers
  import opened JsNumber

  /**
   * A row key, a string or a number. Two keys are the same `Set` member under
   * SameValueZero: NaN matches NaN and the two zeros match, which is what
   * equality of `Num` values gives.
   */
  datatype RowKey = StrKey(s: string) | NumKey(n: Num)

  /** A row of the table: its `id` and the rest of its data. */
  datatype Row<T> = Row(id: RowKey, data: T)

  /** The key set after `toggleExpanded(id)`: an expanded key is collapsed, any other key is expanded. */
  function Toggled(s: set<RowKey>, id: RowKey): (r: set<RowKey>)
    ensures id in r <==> id !in s
    ensures forall k :: k != id ==> (k in r <==> k in s)
  {
    if id in s then s - {id} else s + {id}
  }

  /** Toggling a key twice gives the set back. */
  lemma ToggledTwice(s: set<RowKey>, id: RowKey)
    ensures Toggled(Toggled(s, id), id) == s
  {
    if id in s {
      assert Toggled(s, id) + {id} == s;
    }
  }

  /** Toggles of two different keys commute. */
  lemma ToggledCommute(s: set<RowKey>, a: RowKey, b: RowKey)
    ensures Toggled(Toggled(s, a), b) == Toggled(Toggled(s, b), a)
  {
  }

  class DataTableExpandable<T, C> {
    /** The caller's `getRowKey`; without one the row's `id` is the key. */
    const getRowKey: Option<Row<T> -> RowKey>
    /** The caller's `renderExpandedContent`, whose result may be empty. */
    const renderExpandedContent: Option<T -> Option<C>>
    var expanded: set<RowKey>

    constructor(getRowKey: Option<Row<T> -> RowKey>, renderExpandedContent: Option<T -> Option<C>>)
      ensures this.getRowKey == getRowKey && this.renderExpandedContent == renderExpandedContent
      ensures expanded == {}
    {
      this.getRowKey := getRowKey;
      this.renderExpandedContent := renderExpandedContent;
      expanded := {};
    }

    /** The key of a row: the caller's `getRowKey`, or the row's `id` by default. */
    function KeyOf(row: Row<T>): (k: RowKey)
      ensures getRowKey.None? ==> k == row.id
    {
      match getRowKey
      case None => row.id
      case Some(f) => f(row)
    }

    /** The chevron points down when the row's key is expanded. */
    predicate IsExpanded(row: Row<T>)
      reads this
    {
      KeyOf(row) in expanded
    }

    /** `toggleExpanded`: the key flips between expanded and collapsed, every other key stays as it was. */
    method ToggleExpanded(id: RowKey)
      modifies this
      ensures expanded == Toggled(old(expanded), id)
      ensures id in expanded <==> id !in old(expanded)
      ensures forall k :: k != id ==> (k in expanded <==> k in old(expanded))
    {
      var next := expanded;
      if id in next {
        next := next - {id};
      } else {
        next := next + {id};
      }
      expanded := next;
    }

    /** The chevron's click: the row's own key is toggled. */
    method ToggleRow(row: Row<T>)
      modifies this
      ensures expanded == Toggled(old(expanded), KeyOf(row))
      ensures IsExpanded(row) <==> !old(IsExpanded(row))
      ensures forall other: Row<T> :: KeyOf(other) != KeyOf(row) ==> (IsExpanded(other) <==> KeyOf(other) in old(expanded))
    {
      ToggleExpanded(KeyOf(row));
    }

    /** `renderRowChildren`: nothing for a collapsed row; otherwise the expanded content, if any. */
    function RowChildren(row: Row<T>): (r: Option<C>)
      reads this
      ensures !IsExpanded(row) ==> r.None?
      ensures IsExpanded(row) && renderExpandedContent.Some? ==> r == renderExpandedContent.value(row.data)
      ensures renderExpandedContent.None? ==> r.None?
    {
      if KeyOf(row) !in expanded then None
      else
        match renderExpandedContent
        case None => None
        case Some(render) => render(row.data)
    }
  }

  /** Every row of a freshly created table is collapsed and renders no children. */
  lemma FreshTableCollapsed<T, C>(t: DataTableExpandable<T, C>, row: Row<T>)
    requires t.expanded == {}
    ensures !t.IsExpanded(row) && t.RowChildren(row).None?
  {
  }
}
