/** The row list of the repeatable reference field: what a row holds, how rows
    are built from and projected back to the field's stored value, and the pure
    list operations behind the add, edit, image and delete handlers. */
module Rows {

  import opened Wrappers
  import opened Reordering

  /** The local identity of a row (a `uuid()` in the widget). */
  type Key = nat

  /** The link pointer of an image: `{id, linkType, type}`. */
  datatype Sys = Sys(id: string, linkType: string, linkKind: string)

  /** A row's image: the empty string, or a link to an asset with its display URL. */
  datatype Image = NoImage | Linked(sys: Sys, url: string)

  /** One record of the field's stored value. */
  datatype Entry = Entry(title: string, image: Image, desc: string, ctaLink: string, ctaButtonText: string)

  /** One row of the list the widget edits: a stored record plus its local key. */
  datatype Row = Row(key: Key, title: string, image: Image, desc: string, ctaLink: string, ctaButtonText: string)

  /** The text inputs of a row, named by their `name` attribute in the form. */
  datatype Field = Title | Desc | CtaLink | CtaButtonText

  /** An asset returned by the asset picker: its id and its resolved file URL. */
  datatype Asset = Asset(id: string, url: string)

  /** How the asset picker dialog ended: an asset chosen, closed without a choice,
      or an exception (from the dialog or from reading the asset's file). */
  datatype Selection = Picked(asset: Asset) | Cancelled | Failed

  /** No two rows share a key. */
  ghost predicate UniqueKeys(rows: seq<Row>)
  {
    forall i, j :: 0 <= i < j < |rows| ==> rows[i].key != rows[j].key
  }

  /** Every key is below `bound`, so a key from `bound` on is fresh. */
  ghost predicate KeysBelow(rows: seq<Row>, bound: Key)
  {
    forall i :: 0 <= i < |rows| ==> rows[i].key < bound
  }

  /** Two lists whose rows carry the same keys, position by position. */
  ghost predicate SameKeys(a: seq<Row>, b: seq<Row>)
  {
    |a| == |b| && forall i :: 0 <= i < |a| ==> a[i].key == b[i].key
  }

  lemma SameKeysKeepInvariant(a: seq<Row>, b: seq<Row>, bound: Key)
    requires SameKeys(a, b) && UniqueKeys(a) && KeysBelow(a, bound)
    ensures UniqueKeys(b) && KeysBelow(b, bound)
  {
  }

  /** The persisted record of a row: its key left out. */
  function ToEntry(r: Row): (e: Entry)
  {
    Entry(r.title, r.image, r.desc, r.ctaLink, r.ctaButtonText)
  }

  function FromEntry(e: Entry, key: Key): (r: Row)
  {
    Row(key, e.title, e.image, e.desc, e.ctaLink, e.ctaButtonText)
  }

  /** The rows built at mount from the field's stored value, numbering keys from
      `firstKey`: an absent value gives no rows; otherwise one row per record, in
      order, keeping the record's fields and gaining a fresh key. */
  function Hydrate(value: Option<seq<Entry>>, firstKey: Key): (rows: seq<Row>)
    ensures value.None? ==> rows == []
    ensures value.Some? ==> |rows| == |value.value|
    ensures value.Some? ==> forall i :: 0 <= i < |rows| ==> ToEntry(rows[i]) == value.value[i]
    ensures forall i :: 0 <= i < |rows| ==> firstKey <= rows[i].key
    ensures UniqueKeys(rows) && KeysBelow(rows, firstKey + |rows|)
  {
    match value
    case None => []
    case Some(entries) =>
      seq(|entries|, i requires 0 <= i < |entries| => FromEntry(entries[i], firstKey + i))
  }

  /** The value pushed to the field: every row in order, with exactly the five
      persisted fields and no key. */
  function Sanitize(rows: seq<Row>): (value: seq<Entry>)
    ensures |value| == |rows|
    ensures forall i :: 0 <= i < |rows| ==>
      && value[i].title == rows[i].title
      && value[i].image == rows[i].image
      && value[i].desc == rows[i].desc
      && value[i].ctaLink == rows[i].ctaLink
      && value[i].ctaButtonText == rows[i].ctaButtonText
  {
    seq(|rows|, i requires 0 <= i < |rows| => ToEntry(rows[i]))
  }

  /** Hydrating a stored value and sanitizing it gives back the stored value. */
  lemma SanitizeHydrate(entries: seq<Entry>, firstKey: Key)
    ensures Sanitize(Hydrate(Some(entries), firstKey)) == entries
  {
  }

  /** Sanitizing forgets only the keys: two lists with the same sanitized value
      differ at most in their keys. */
  lemma SanitizeForgetsOnlyKeys(a: seq<Row>, b: seq<Row>)
    requires Sanitize(a) == Sanitize(b)
    ensures |a| == |b|
    ensures forall i :: 0 <= i < |a| ==> a[i] == b[i].(key := a[i].key)
  {
  }

  /** The row appended by the add button. */
  function EmptyRow(key: Key): (r: Row)
  {
    Row(key, "", NoImage, "", "", "")
  }

  /** The add handler: one more row at the end, every text empty and no image,
      the rows before it unchanged. */
  function Add(rows: seq<Row>, key: Key): (r: seq<Row>)
    ensures |r| == |rows| + 1
    ensures r[..|rows|] == rows
    ensures r[|rows|].key == key && r[|rows|].image == NoImage
    ensures r[|rows|].title == "" && r[|rows|].desc == ""
    ensures r[|rows|].ctaLink == "" && r[|rows|].ctaButtonText == ""
  {
    rows + [EmptyRow(key)]
  }

  /** A fresh key keeps keys unique, and the next fresh key is one further on. */
  lemma AddKeepsKeysUnique(rows: seq<Row>, key: Key)
    requires UniqueKeys(rows) && KeysBelow(rows, key)
    ensures UniqueKeys(Add(rows, key)) && KeysBelow(Add(rows, key), key + 1)
  {
  }

  /** What the field receives after an add: the previous value and one empty record. */
  lemma SanitizeAdd(rows: seq<Row>, key: Key)
    ensures Sanitize(Add(rows, key)) == Sanitize(rows) + [Entry("", NoImage, "", "", "")]
  {
  }

  /** The text of one named input of a row. */
  function Text(r: Row, f: Field): string
  {
    match f
    case Title => r.title
    case Desc => r.desc
    case CtaLink => r.ctaLink
    case CtaButtonText => r.ctaButtonText
  }

  /** A row with one named text replaced and everything else as it was. */
  function WithText(r: Row, f: Field, v: string): (r': Row)
    ensures Text(r', f) == v
    ensures forall g :: g != f ==> Text(r', g) == Text(r, g)
    ensures r'.key == r.key && r'.image == r.image
  {
    match f
    case Title => r.(title := v)
    case Desc => r.(desc := v)
    case CtaLink => r.(ctaLink := v)
    case CtaButtonText => r.(ctaButtonText := v)
  }

  /** Two rows with the same key, image and texts are the same row. */
  lemma RowsEqualByParts(a: Row, b: Row)
    requires a.key == b.key && a.image == b.image
    requires forall f :: Text(a, f) == Text(b, f)
    ensures a == b
  {
    assert Text(a, Title) == Text(b, Title);
    assert Text(a, Desc) == Text(b, Desc);
    assert Text(a, CtaLink) == Text(b, CtaLink);
    assert Text(a, CtaButtonText) == Text(b, CtaButtonText);
  }

  /** The text-change handler: `None` when there is no row at `i` (the assignment
      into `updatedRows[i]` throws and no state is set); otherwise field `f` of row
      `i` becomes `v` and every other field and every other row stays. */
  function EditText(rows: seq<Row>, i: int, f: Field, v: string): (r: Option<seq<Row>>)
    ensures r.Some? <==> 0 <= i < |rows|
    ensures r.Some? ==> |r.value| == |rows|
    ensures r.Some? ==> forall j :: 0 <= j < |rows| && j != i ==> r.value[j] == rows[j]
    ensures r.Some? ==> Text(r.value[i], f) == v
    ensures r.Some? ==> forall g :: g != f ==> Text(r.value[i], g) == Text(rows[i], g)
    ensures r.Some? ==> r.value[i].key == rows[i].key && r.value[i].image == rows[i].image
  {
    if 0 <= i < |rows| then Some(rows[i := WithText(rows[i], f, v)]) else None
  }

  /** Typing the previous text back into the same input restores the list. */
  lemma EditTextUndo(rows: seq<Row>, i: int, f: Field, v: string)
    requires 0 <= i < |rows|
    ensures EditText(EditText(rows, i, f, v).value, i, f, Text(rows[i], f)) == Some(rows)
  {
    var edited := EditText(rows, i, f, v).value;
    var back := EditText(edited, i, f, Text(rows[i], f)).value;
    forall g
      ensures Text(back[i], g) == Text(rows[i], g)
    {
      if g != f {
        assert Text(back[i], g) == Text(edited[i], g);
      }
    }
    RowsEqualByParts(back[i], rows[i]);
    assert back == rows;
  }

  /** An edit keeps every key in its place. */
  lemma EditTextKeepsKeys(rows: seq<Row>, i: int, f: Field, v: string)
    requires 0 <= i < |rows|
    ensures SameKeys(rows, EditText(rows, i, f, v).value)
  {
  }

  /** The stored image pointer for an asset: `{sys: {id, linkType: "Asset", type: "Link"}, url}`. */
  function AssetLink(a: Asset): (img: Image)
    ensures img.Linked? && img.sys.id == a.id && img.url == a.url
    ensures img.sys.linkType == "Asset" && img.sys.linkKind == "Link"
  {
    Linked(Sys(a.id, "Asset", "Link"), a.url)
  }

  /** Whether the image handler writes: an asset was chosen and `i` is a position
      of the list it captured. */
  predicate ImageApplies(rows: seq<Row>, i: int, sel: Selection)
  {
    sel.Picked? && 0 <= i < |rows|
  }

  /** The image handler on the list it captured: with an asset and an index inside
      the list, row `i` gets the asset's link and nothing else changes; a
      cancelled or failed dialog or an index outside the list leaves the list as
      it is. */
  function SetImage(rows: seq<Row>, i: int, sel: Selection): (r: seq<Row>)
    ensures |r| == |rows|
    ensures !ImageApplies(rows, i, sel) ==> r == rows
    ensures ImageApplies(rows, i, sel) ==>
      && r[i] == rows[i].(image := AssetLink(sel.asset))
      && forall j :: 0 <= j < |rows| && j != i ==> r[j] == rows[j]
  {
    if ImageApplies(rows, i, sel) then rows[i := rows[i].(image := AssetLink(sel.asset))] else rows
  }

  /** Choosing the same asset again for the same row changes nothing more. */
  lemma SetImageIdempotent(rows: seq<Row>, i: int, sel: Selection)
    ensures SetImage(SetImage(rows, i, sel), i, sel) == SetImage(rows, i, sel)
  {
  }

  /** Setting an image keeps every key in its place. */
  lemma SetImageKeepsKeys(rows: seq<Row>, i: int, sel: Selection)
    ensures SameKeys(rows, SetImage(rows, i, sel))
  {
  }

  /** The delete handler: the list without the rows carrying the deleted row's
      identity, the others in their order. */
  function DeleteByKey(rows: seq<Row>, key: Key): (r: seq<Row>)
    ensures |r| <= |rows|
    ensures forall j :: 0 <= j < |r| ==> r[j].key != key && r[j] in rows
    ensures UniqueKeys(rows) ==> UniqueKeys(r)
    decreases |rows|
  {
    if rows == [] then []
    else
      var rest := DeleteByKey(rows[1..], key);
      assert forall j :: 0 <= j < |rest| ==> rest[j] in rows[1..];
      if rows[0].key == key then rest else [rows[0]] + rest
  }

  /** Every row with another key survives a delete. */
  lemma {:induction false} DeleteKeepsOthers(rows: seq<Row>, key: Key, j: nat)
    requires j < |rows| && rows[j].key != key
    ensures rows[j] in DeleteByKey(rows, key)
  {
    if j > 0 {
      DeleteKeepsOthers(rows[1..], key, j - 1);
    }
  }

  /** Deleting a row whose key is not in the list changes nothing. */
  lemma {:induction false} DeleteAbsent(rows: seq<Row>, key: Key)
    requires forall j :: 0 <= j < |rows| ==> rows[j].key != key
    ensures DeleteByKey(rows, key) == rows
  {
    if rows != [] {
      DeleteAbsent(rows[1..], key);
    }
  }

  /** With unique keys, deleting the row at position `j` removes exactly that row
      and keeps the others in order; in particular a one-row list becomes empty. */
  lemma {:induction false} DeleteRemovesOne(rows: seq<Row>, j: nat)
    requires UniqueKeys(rows) && j < |rows|
    ensures DeleteByKey(rows, rows[j].key) == rows[..j] + rows[j + 1..]
    ensures |DeleteByKey(rows, rows[j].key)| == |rows| - 1
  {
    var tail := rows[1..];
    if j == 0 {
      DeleteAbsent(tail, rows[0].key);
    } else {
      DeleteRemovesOne(tail, j - 1);
      assert tail[j - 1] == rows[j];
      assert tail[..j - 1] + tail[j..] == rows[1..j] + rows[j + 1..];
      assert rows[..j] == [rows[0]] + rows[1..j];
    }
  }

  /** Deleting keeps every survivor's key below the same bound. */
  lemma DeleteKeepsKeysBelow(rows: seq<Row>, key: Key, bound: Key)
    requires KeysBelow(rows, bound)
    ensures KeysBelow(DeleteByKey(rows, key), bound)
  {
  }

  /** A drag keeps keys unique and below the same bound: the rows are only
      permuted. */
  lemma MovedKeepsKeysUnique(rows: seq<Row>, src: nat, dst: nat, bound: Key)
    requires src < |rows| && dst < |rows|
    requires UniqueKeys(rows) && KeysBelow(rows, bound)
    ensures UniqueKeys(Moved(rows, src, dst)) && KeysBelow(Moved(rows, src, dst), bound)
  {
  }

  /** The field receives the same move as the rows: sanitizing commutes with a drag. */
  lemma SanitizeMoved(rows: seq<Row>, src: nat, dst: nat)
    requires src < |rows| && dst < |rows|
    ensures Sanitize(Moved(rows, src, dst)) == Moved(Sanitize(rows), src, dst)
  {
  }
}
