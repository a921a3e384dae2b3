/** The field editor's state and its event handlers. The widget keeps its rows
    in component state; every `setRows` replaces that list, and the effect that
    follows pushes the sanitized list to the host field. `writes` records those
    pushes in order, and `nextKey` stands for the supply of fresh `uuid()` keys. */
module Widget {

  import opened Wrappers
  import opened Rows
  import opened Reordering

  /** An image selection in flight: the row position clicked and the list as it
      was at the click, which is what the handler bounds-checks and commits. */
  datatype PendingSelection = PendingSelection(index: int, snapshot: seq<Row>)

  class RepeatableField {
    var rows: seq<Row>
    var nextKey: Key
    var writes: seq<seq<Entry>>

    /** Keys are unique and were all handed out by the key supply, and the
        value last pushed to the field is the sanitized current list. */
    ghost predicate Valid()
      reads this
    {
      && UniqueKeys(rows)
      && KeysBelow(rows, nextKey)
      && |writes| > 0
      && writes[|writes| - 1] == Sanitize(rows)
    }

    /** Mount: hydrate from the field's stored value, then the first push. */
    constructor (fieldValue: Option<seq<Entry>>)
      ensures Valid()
      ensures rows == Hydrate(fieldValue, 0)
      ensures fieldValue.Some? ==> writes == [fieldValue.value]
      ensures fieldValue.None? ==> writes == [[]]
    {
      var initial := Hydrate(fieldValue, 0);
      rows := initial;
      nextKey := |initial|;
      writes := [Sanitize(initial)];
      if fieldValue.Some? {
        SanitizeHydrate(fieldValue.value, 0);
      }
    }

    /** `setRows(updated)` followed by the synchronising effect. */
    method Commit(updated: seq<Row>)
      requires UniqueKeys(updated) && KeysBelow(updated, nextKey)
      modifies this
      ensures Valid()
      ensures rows == updated && nextKey == old(nextKey)
      ensures writes == old(writes) + [Sanitize(updated)]
    {
      rows := updated;
      writes := writes + [Sanitize(rows)];
    }

    /** The add button. */
    method AddRow()
      requires Valid()
      modifies this
      ensures Valid()
      ensures rows == Add(old(rows), old(nextKey))
      ensures nextKey == old(nextKey) + 1
      ensures writes == old(writes) + [old(writes[|writes| - 1]) + [Entry("", NoImage, "", "", "")]]
    {
      var key := nextKey;
      nextKey := nextKey + 1;
      AddKeepsKeysUnique(rows, key);
      SanitizeAdd(rows, key);
      Commit(rows + [EmptyRow(key)]);
    }

    /** A text input's change event for input `f` of the row at `i`. When there is
        no row at `i` the assignment throws before any state is set. */
    method ChangeText(i: int, f: Field, v: string) returns (threw: bool)
      requires Valid()
      modifies this
      ensures Valid()
      ensures threw <==> EditText(old(rows), i, f, v).None?
      ensures threw ==> rows == old(rows) && writes == old(writes) && nextKey == old(nextKey)
      ensures !threw ==> rows == EditText(old(rows), i, f, v).value
      ensures !threw ==> writes == old(writes) + [Sanitize(rows)] && nextKey == old(nextKey)
    {
      var updated := rows;
      if !(0 <= i < |updated|) {
        return true;
      }
      updated := updated[i := WithText(updated[i], f, v)];
      EditTextKeepsKeys(rows, i, f, v);
      SameKeysKeepInvariant(rows, updated, nextKey);
      Commit(updated);
      threw := false;
    }

    /** The image button's click: capture the position and the current list
        before the asset dialog opens. */
    method BeginImageSelection(i: int) returns (p: PendingSelection)
      requires Valid()
      ensures p.index == i && p.snapshot == rows
      ensures UniqueKeys(p.snapshot) && KeysBelow(p.snapshot, nextKey)
    {
      p := PendingSelection(i, rows);
    }

    /** The asset dialog settles. With an asset and an index inside the captured
        list, that list with the new image becomes the state, whatever happened
        to the rows in between; otherwise nothing is set. */
    method CompleteImageSelection(p: PendingSelection, sel: Selection)
      requires Valid()
      requires UniqueKeys(p.snapshot) && KeysBelow(p.snapshot, nextKey)
      modifies this
      ensures Valid()
      ensures nextKey == old(nextKey)
      ensures ImageApplies(p.snapshot, p.index, sel) ==>
        rows == SetImage(p.snapshot, p.index, sel) && writes == old(writes) + [Sanitize(rows)]
      ensures !ImageApplies(p.snapshot, p.index, sel) ==>
        rows == old(rows) && writes == old(writes)
    {
      var updated := p.snapshot;
      if sel.Picked? {
        if 0 <= p.index < |updated| {
          updated := updated[p.index := updated[p.index].(image := AssetLink(sel.asset))];
          SetImageKeepsKeys(p.snapshot, p.index, sel);
          SameKeysKeepInvariant(p.snapshot, updated, nextKey);
          Commit(updated);
        }
      }
    }

    /** The delete button of row `passed`: every row with its identity is dropped. */
    method DeleteRow(passed: Row)
      requires Valid()
      modifies this
      ensures Valid()
      ensures rows == DeleteByKey(old(rows), passed.key)
      ensures nextKey == old(nextKey) && writes == old(writes) + [Sanitize(rows)]
    {
      var updated := DeleteByKey(rows, passed.key);
      DeleteKeepsKeysBelow(rows, passed.key, nextKey);
      Commit(updated);
    }

    /** The end of a drag: nothing when there is no destination; otherwise the
        copied list is spliced twice, taking the dragged row out at the splice
        position of the source and putting it back at that of the destination. */
    method DragEnd(src: int, dst: Option<int>)
      requires Valid()
      requires dst.Some? ==> 0 < |rows| && src < |rows|
      modifies this
      ensures Valid()
      ensures rows == Reorder(old(rows), src, dst)
      ensures nextKey == old(nextKey)
      ensures dst.None? ==> writes == old(writes)
      ensures dst.Some? ==> writes == old(writes) + [Sanitize(rows)]
    {
      if dst.None? {
        return;
      }
      var result := rows;
      var from := SpliceStart(src, |result|);
      var removed := result[from];
      result := RemoveAt(result, from);
      var d := SpliceStart(dst.value, |result|);
      result := InsertAt(result, d, removed);
      MovedBySplices(rows, from, d);
      MovedKeepsKeysUnique(rows, from, d, nextKey);
      Commit(result);
    }
  }
}
