/** The adapter's collection manager: an ordered sequence of listables, the
    adapter-wide default type, and the change notifications the adapter has
    sent to the list view so far. Every operation is a pure function from
    the old adapter to the new one; a position outside the bounds the
    backing list accepts is a precondition violation (the list throws). */
module Adapter {
  import opened Listables
  import FormValues

  /** The change notifications a list adapter can send, with the arguments
      exactly as the adapter passes them. Positions are plain integers:
      `ItemInserted(size - 1)` after an empty bulk insert into an empty list
      announces position -1. */
  datatype Notification =
    | ItemInserted(position: int)
    | ItemRemoved(position: int)
    | ItemChanged(position: int)
    | ItemRangeChanged(positionStart: int, itemCount: int)
    | ItemRangeRemoved(positionStart: int, itemCount: int)

  /** An adapter: its default type, its items in display order, and the
      append-only log of notifications it has sent. */
  datatype Adapter = Adapter(listableType: ListableType, listables: seq<Listable>, log: seq<Notification>)

  /** A freshly constructed adapter has sent nothing yet. */
  function Create(listableType: ListableType, listables: seq<Listable>): (a: Adapter)
    ensures a.listables == listables && a.listableType == listableType
    ensures |a.log| == 0
  {
    Adapter(listableType, listables, [])
  }

  /** The layout chosen for the row at `position`: the item's own type when
      it is tagged, the adapter's default type otherwise. */
  function GetItemViewType(a: Adapter, position: int): (layout: int)
    requires 0 <= position < |a.listables|
    ensures a.listables[position].listableType.None? ==> layout == a.listableType.layout
    ensures a.listables[position].listableType.Some? ==>
              layout == a.listables[position].listableType.value.layout
  {
    ViewType(a.listables[position], a.listableType)
  }

  /** The form's answers: each form-input name mapped to the value of its
      last occurrence; non-form items contribute nothing. */
  function RetrieveFormValues(a: Adapter): (formData: map<string, string>)
    ensures formData.Keys == FormValues.FormNames(a.listables)
    ensures forall i {:trigger FormValues.IsLastWithName(a.listables, i)} :: 0 <= i < |a.listables| && FormValues.IsLastWithName(a.listables, i) ==>
              a.listables[i].name in formData && formData[a.listables[i].name] == a.listables[i].value
  {
    FormValues.Retrieve(a.listables)
  }

  /** Removes the item at `position`; announces the removal, then a range
      change starting there whose count is the new size. */
  function RemoveAt(a: Adapter, position: int): (r: Adapter)
    requires 0 <= position < |a.listables|
    ensures |r.listables| == |a.listables| - 1
    ensures forall i :: 0 <= i < position ==> r.listables[i] == a.listables[i]
    ensures forall i :: position <= i < |r.listables| ==> r.listables[i] == a.listables[i + 1]
    ensures r.log == a.log + [ItemRemoved(position), ItemRangeChanged(position, |a.listables| - 1)]
    ensures r.listableType == a.listableType
  {
    var rest := a.listables[..position] + a.listables[position + 1..];
    a.(listables := rest, log := a.log + [ItemRemoved(position), ItemRangeChanged(position, |rest|)])
  }

  /** Empties the list; announces the removal of the whole former extent. */
  function Clear(a: Adapter): (r: Adapter)
    ensures |r.listables| == 0
    ensures r.log == a.log + [ItemRangeRemoved(0, |a.listables|)]
    ensures r.listableType == a.listableType
  {
    var size := |a.listables|;
    a.(listables := [], log := a.log + [ItemRangeRemoved(0, size)])
  }

  /** Inserts one item at `position` (which may be the current size);
      announces one insertion there. */
  function AddAt(a: Adapter, position: int, listable: Listable): (r: Adapter)
    requires 0 <= position <= |a.listables|
    ensures |r.listables| == |a.listables| + 1
    ensures r.listables[position] == listable
    ensures forall i :: 0 <= i < position ==> r.listables[i] == a.listables[i]
    ensures forall i :: position < i < |r.listables| ==> r.listables[i] == a.listables[i - 1]
    ensures r.log == a.log + [ItemInserted(position)]
    ensures r.listableType == a.listableType
  {
    a.(listables := a.listables[..position] + [listable] + a.listables[position..],
       log := a.log + [ItemInserted(position)])
  }

  /** Overwrites the item at `position`; announces a change there. */
  function ReplaceAt(a: Adapter, position: int, listable: Listable): (r: Adapter)
    requires 0 <= position < |a.listables|
    ensures |r.listables| == |a.listables|
    ensures r.listables[position] == listable
    ensures forall i :: 0 <= i < |r.listables| && i != position ==> r.listables[i] == a.listables[i]
    ensures r.log == a.log + [ItemChanged(position)]
    ensures r.listableType == a.listableType
  {
    a.(listables := a.listables[position := listable], log := a.log + [ItemChanged(position)])
  }

  /** Inserts a block of items at `position` (both the vararg and the list
      overload). It announces one insertion at the new last index, whatever
      the insertion point, then a range change from `position` whose count
      is the new size. */
  function AddAtAll(a: Adapter, position: int, listables: seq<Listable>): (r: Adapter)
    requires 0 <= position <= |a.listables|
    ensures |r.listables| == |a.listables| + |listables|
    ensures forall i :: 0 <= i < position ==> r.listables[i] == a.listables[i]
    ensures forall k :: 0 <= k < |listables| ==> r.listables[position + k] == listables[k]
    ensures forall i :: position + |listables| <= i < |r.listables| ==>
              r.listables[i] == a.listables[i - |listables|]
    ensures r.log == a.log + [ItemInserted(|a.listables| + |listables| - 1),
                              ItemRangeChanged(position, |a.listables| + |listables|)]
    ensures r.listableType == a.listableType
  {
    var grown := a.listables[..position] + listables + a.listables[position..];
    a.(listables := grown,
       log := a.log + [ItemInserted(|grown| - 1), ItemRangeChanged(position, |grown|)])
  }

  /** `incoming` with every element that is value-equal to some element of
      `present` dropped, in the original order. Duplicates among `incoming`
      that are absent from `present` all survive. */
  function Absent(incoming: seq<Listable>, present: seq<Listable>): (kept: seq<Listable>)
    ensures |kept| <= |incoming|
    ensures forall x :: x in kept <==> x in incoming && x !in present
    decreases |incoming|
  {
    if |incoming| == 0 then []
    else
      var head := incoming[0];
      var rest := Absent(incoming[1..], present);
      assert incoming == [head] + incoming[1..];
      if head in present then rest else [head] + rest
  }

  /** Appends the items of `listables` that are not already present; it
      announces one insertion at the new last index, then a range change
      from the old size whose count is the new size. */
  function AddAll(a: Adapter, listables: seq<Listable>): (r: Adapter)
    ensures |r.listables| >= |a.listables|
    ensures r.listables[..|a.listables|] == a.listables
    ensures r.listables[|a.listables|..] == Absent(listables, a.listables)
    ensures r.log == a.log + [ItemInserted(|r.listables| - 1),
                              ItemRangeChanged(|a.listables|, |r.listables|)]
    ensures r.listableType == a.listableType
  {
    var added := Absent(listables, a.listables);
    var preSize := |a.listables|;
    var grown := a.listables + added;
    assert grown[..preSize] == a.listables && grown[preSize..] == added;
    a.(listables := grown, log := a.log + [ItemInserted(|grown| - 1), ItemRangeChanged(preSize, |grown|)])
  }

  /** Appends one item; announces one insertion at the old size. */
  function Add(a: Adapter, listable: Listable): (r: Adapter)
    ensures |r.listables| == |a.listables| + 1
    ensures r.listables[..|a.listables|] == a.listables
    ensures r.listables[|a.listables|] == listable
    ensures r.log == a.log + [ItemInserted(|a.listables|)]
    ensures r.listableType == a.listableType
  {
    var grown := a.listables + [listable];
    assert grown[..|a.listables|] == a.listables;
    a.(listables := grown, log := a.log + [ItemInserted(|grown| - 1)])
  }
}
