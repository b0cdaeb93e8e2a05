/** The items an adapter displays: the `Listable` capability (a stable
    identifier and an optional type tag), the form-input variant, the two
    predicates the adapter hands to the list-diffing library, and the rule
    that picks a view template for an item. */
module Listables {

  datatype Option<+T> = None | Some(value: T)

  /** A type tag: a named kind of item and the layout (view template) id
      that renders it. */
  datatype ListableType = ListableType(tag: string, layout: int)

  /** How a form-input row edits its text. */
  datatype InputKind = Text | Date | Time

  /** A displayable item. Every variant has an `identifier` and an optional
      `listableType`; `FormInput` is the library's form-input element, whose
      `name`/`value` pair is what a form submission collects. `Card` stands
      for every other kind of item (people, animals, furniture, ...), whose
      remaining fields only matter through value equality. */
  datatype Listable =
    | Card(identifier: string, listableType: Option<ListableType>, content: seq<string>)
    | FormInput(identifier: string, listableType: Option<ListableType>,
                name: string, value: string, hint: string, placeholder: string,
                kind: InputKind)

  /** The diff callback's "same item" test: identifiers agree. */
  predicate AreItemsTheSame(oldItem: Listable, newItem: Listable)
  {
    oldItem.identifier == newItem.identifier
  }

  /** The diff callback's "same contents" test: value equality. */
  predicate AreContentsTheSame(oldItem: Listable, newItem: Listable)
  {
    oldItem == newItem
  }

  /** Content equality refines identity: with content equality taken as
      equality of every field, the identifier included, two rows with the
      same contents are always matched as the same row. */
  lemma ContentsTheSameImpliesItemsTheSame(oldItem: Listable, newItem: Listable)
    ensures AreContentsTheSame(oldItem, newItem) ==> AreItemsTheSame(oldItem, newItem)
  {
  }

  /** A copy of a form input that differs only in its value is matched as
      the same row but does not have the same contents. */
  lemma EditedValueIsAChange(item: Listable, newValue: string)
    requires item.FormInput? && item.value != newValue
    ensures AreItemsTheSame(item, item.(value := newValue))
    ensures !AreContentsTheSame(item, item.(value := newValue))
  {
  }

  /** The layout id for one item: its own type's layout when it carries a
      type tag, the adapter-wide default otherwise. */
  function ViewType(item: Listable, default: ListableType): (layout: int)
    ensures item.listableType.None? ==> layout == default.layout
    ensures item.listableType.Some? ==> layout == item.listableType.value.layout
  {
    match item.listableType
    case None => default.layout
    case Some(t) => t.layout
  }

  /** A tagged item ignores the default entirely; an untagged one follows it. */
  lemma ViewTypeIgnoresDefaultWhenTagged(item: Listable, d1: ListableType, d2: ListableType)
    ensures item.listableType.Some? ==> ViewType(item, d1) == ViewType(item, d2)
    ensures item.listableType.None? ==> (ViewType(item, d1) == ViewType(item, d2) <==> d1.layout == d2.layout)
  {
  }
}
