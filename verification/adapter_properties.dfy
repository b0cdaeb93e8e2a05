/** Properties that relate the adapter's operations to each other:
    inverses, idempotence of the deduplicating append, the overloads that
    coincide, and worked scenarios built on the sample form screen's data
    and small hand-built cases. */
module AdapterProperties {
  import opened Listables
  import opened Adapter
  import FormValues

  /** How often each value occurs in the deduplicated append: never if it
      was already present, as often as in `incoming` otherwise. */
  lemma {:induction false} AbsentCounts(incoming: seq<Listable>, present: seq<Listable>, x: Listable)
    ensures multiset(Absent(incoming, present))[x] == if x in present then 0 else multiset(incoming)[x]
    decreases |incoming|
  {
    if |incoming| > 0 {
      AbsentCounts(incoming[1..], present, x);
      assert incoming == [incoming[0]] + incoming[1..];
      assert multiset(incoming) == multiset([incoming[0]]) + multiset(incoming[1..]);
    }
  }

  /** The filter works item by item, so it distributes over concatenation;
      with `Absent([x], present)` being `[x]` or `[]`, this pins down that
      the survivors keep their original order. */
  lemma {:induction false} AbsentAppend(xs: seq<Listable>, ys: seq<Listable>, present: seq<Listable>)
    ensures Absent(xs + ys, present) == Absent(xs, present) + Absent(ys, present)
    decreases |xs|
  {
    if |xs| == 0 {
      assert xs + ys == ys;
    } else {
      assert (xs + ys)[1..] == xs[1..] + ys;
      AbsentAppend(xs[1..], ys, present);
    }
  }

  /** Nothing survives when every incoming item is already present. */
  lemma AbsentOfCovered(incoming: seq<Listable>, present: seq<Listable>)
    requires forall x :: x in incoming ==> x in present
    ensures Absent(incoming, present) == []
  {
  }

  /** Everything survives, in order, when no incoming item is present. */
  lemma {:induction false} AbsentOfDisjoint(incoming: seq<Listable>, present: seq<Listable>)
    requires forall x :: x in incoming ==> x !in present
    ensures Absent(incoming, present) == incoming
    decreases |incoming|
  {
    if |incoming| > 0 {
      assert incoming[0] in incoming;
      assert forall x :: x in incoming[1..] ==> x in incoming;
      AbsentOfDisjoint(incoming[1..], present);
      assert incoming == [incoming[0]] + incoming[1..];
    }
  }

  /** Appending the same batch twice adds nothing the second time: every
      item of the batch is then either an old item or one the first call
      appended. The second call still sends its two notifications. */
  lemma AddAllIdempotent(a: Adapter, listables: seq<Listable>)
    ensures AddAll(AddAll(a, listables), listables).listables == AddAll(a, listables).listables
    ensures var n := |AddAll(a, listables).listables|;
            AddAll(AddAll(a, listables), listables).log ==
              AddAll(a, listables).log + [ItemInserted(n - 1), ItemRangeChanged(n, n)]
  {
    var b := AddAll(a, listables);
    assert b.listables == a.listables + Absent(listables, a.listables);
    forall x | x in listables
      ensures x in b.listables
    {
      if x !in a.listables {
        assert x in Absent(listables, a.listables);
      }
    }
    AbsentOfCovered(listables, b.listables);
    assert AddAll(b, listables).listables == b.listables + [];
  }

  /** When no incoming item is already present, the deduplicating append is
      exactly the bulk insertion at the end, notifications included. */
  lemma AddAllOfNewItemsIsAddAtAllAtEnd(a: Adapter, listables: seq<Listable>)
    requires forall x :: x in listables ==> x !in a.listables
    ensures AddAll(a, listables) == AddAtAll(a, |a.listables|, listables)
  {
    AbsentOfDisjoint(listables, a.listables);
    AddAllIsAddAtAllOfSurvivors(a, listables);
  }

  /** The deduplicating append is the bulk insertion, at the end, of the
      items that survive the filter, notifications included. */
  lemma AddAllIsAddAtAllOfSurvivors(a: Adapter, listables: seq<Listable>)
    ensures AddAll(a, listables) == AddAtAll(a, |a.listables|, Absent(listables, a.listables))
  {
  }

  /** Items repeated within one batch are all kept when they are new. */
  lemma AddAllKeepsRepeatsWithinBatch(a: Adapter, x: Listable)
    requires x !in a.listables
    ensures AddAll(a, [x, x]).listables == a.listables + [x, x]
  {
    AbsentOfDisjoint([x, x], a.listables);
  }

  /** Appending one item is inserting it at the current size, with the same
      notification. */
  lemma AddIsAddAtEnd(a: Adapter, listable: Listable)
    ensures Add(a, listable) == AddAt(a, |a.listables|, listable)
  {
    assert a.listables[..|a.listables|] == a.listables;
    assert a.listables[|a.listables|..] == [];
  }

  /** Removing what was just inserted restores the items; the log records
      the insertion, the removal and the range change. */
  lemma RemoveAtUndoesAddAt(a: Adapter, position: int, listable: Listable)
    requires 0 <= position <= |a.listables|
    ensures RemoveAt(AddAt(a, position, listable), position).listables == a.listables
    ensures RemoveAt(AddAt(a, position, listable), position).log ==
              a.log + [ItemInserted(position), ItemRemoved(position), ItemRangeChanged(position, |a.listables|)]
  {
    var r := RemoveAt(AddAt(a, position, listable), position).listables;
    assert forall i :: 0 <= i < |r| ==> r[i] == a.listables[i];
  }

  /** Inserting back what was just removed restores the items. */
  lemma AddAtUndoesRemoveAt(a: Adapter, position: int)
    requires 0 <= position < |a.listables|
    ensures AddAt(RemoveAt(a, position), position, a.listables[position]).listables == a.listables
  {
    var r := AddAt(RemoveAt(a, position), position, a.listables[position]).listables;
    assert forall i :: 0 <= i < |r| ==> r[i] == a.listables[i];
  }

  /** Replacing an item by itself leaves the items as they were (a change
      is still announced); of two replacements at one position the later
      wins. */
  lemma ReplaceAtLastWins(a: Adapter, position: int, x: Listable, y: Listable)
    requires 0 <= position < |a.listables|
    ensures ReplaceAt(a, position, a.listables[position]).listables == a.listables
    ensures ReplaceAt(ReplaceAt(a, position, x), position, y).listables == ReplaceAt(a, position, y).listables
  {
  }

  /** A one-item bulk insertion yields the same items as the single-item
      insertion, but announces the insertion at the new last index and adds
      a range change, so the two logs agree only in their items. */
  lemma AddAtAllOfOne(a: Adapter, position: int, listable: Listable)
    requires 0 <= position <= |a.listables|
    ensures AddAtAll(a, position, [listable]).listables == AddAt(a, position, listable).listables
    ensures AddAtAll(a, position, [listable]).log ==
              a.log + [ItemInserted(|a.listables|), ItemRangeChanged(position, |a.listables| + 1)]
  {
  }

  /** The insertion a bulk insertion announces lands on the inserted block
      only when the block ends the list. */
  lemma AddAtAllAnnouncedPosition(a: Adapter, position: int, listables: seq<Listable>)
    requires 0 <= position <= |a.listables| && |listables| > 0
    ensures var announced := AddAtAll(a, position, listables).log[|a.log|].position;
            (position <= announced < position + |listables|) <==> position == |a.listables|
  {
  }

  /** Clearing forgets every form answer, and a second clear announces an
      empty range. */
  lemma ClearForgetsEverything(a: Adapter)
    ensures RetrieveFormValues(Clear(a)) == map[]
    ensures Clear(Clear(a)).log == a.log + [ItemRangeRemoved(0, |a.listables|), ItemRangeRemoved(0, 0)]
  {
  }

  /** Replacing a form input by a copy with a new value changes exactly that
      answer when no later input shares its name: every other answer stays. */
  lemma ReplaceAtUpdatesFormValue(a: Adapter, position: int, newValue: string)
    requires 0 <= position < |a.listables|
    requires FormValues.IsLastWithName(a.listables, position)
    ensures var item := a.listables[position];
            RetrieveFormValues(ReplaceAt(a, position, item.(value := newValue))) ==
              RetrieveFormValues(a)[item.name := newValue]
  {
    var item := a.listables[position];
    var edited := item.(value := newValue);
    var pre := a.listables[..position];
    var post := a.listables[position + 1..];
    var b := ReplaceAt(a, position, edited);
    assert a.listables == pre + [item] + post;
    assert b.listables == pre + [edited] + post;
    NameNotLater(a.listables, position);
    FormValues.RetrieveAppend(pre + [item], post);
    FormValues.RetrieveAppend(pre + [edited], post);
    FormValues.RetrieveSnoc(pre, item);
    FormValues.RetrieveSnoc(pre, edited);
    OverwriteBeforeUnion(FormValues.Retrieve(pre), FormValues.Retrieve(post), item.name, item.value, newValue);
  }

  /** The last input with a name has no later form input bearing it, so the
      answers collected after it never mention that name. */
  lemma NameNotLater(items: seq<Listable>, i: int)
    requires 0 <= i < |items| && FormValues.IsLastWithName(items, i)
    ensures items[i].name !in FormValues.Retrieve(items[i + 1..])
  {
    var post := items[i + 1..];
    assert forall j :: 0 <= j < |post| ==> post[j] == items[i + 1 + j];
  }

  /** Overwriting a key on the left of a union the right does not touch. */
  lemma OverwriteBeforeUnion(p: map<string, string>, q: map<string, string>, k: string, v: string, w: string)
    requires k !in q
    ensures (p[k := v] + q)[k := w] == p[k := w] + q
  {
  }

  // Worked examples.

  const person := ListableType("Person", 1)
  const animal := ListableType("Animal", 2)

  function Input(name: string, value: string): Listable
  {
    FormInput(name, None, name, value, "", "", Text)
  }

  /** Two form inputs named "a" and "b" yield {"a": "x", "b": "y"}. */
  lemma TwoInputsExample()
    ensures FormValues.Retrieve([Input("a", "x"), Input("b", "y")]) == map["a" := "x", "b" := "y"]
  {
    FormValues.RetrieveSnoc([Input("a", "x")], Input("b", "y"));
    FormValues.RetrieveSnoc([], Input("a", "x"));
    assert [Input("a", "x")] == [] + [Input("a", "x")];
  }

  /** A form that asks for "time" twice reports the later answer, and a card
      between them changes nothing. */
  lemma RepeatedNameExample(card: Listable)
    requires card.Card?
    ensures FormValues.Retrieve([Input("time", "09:00"), card, Input("time", "17:00")]) == map["time" := "17:00"]
  {
    var items := [Input("time", "09:00"), card, Input("time", "17:00")];
    assert FormValues.IsLastWithName(items, 2);
  }

  /** With a Person default, an Animal card and a Person card resolve to
      their own layouts, not the default's. */
  lemma ViewTypeExample()
    ensures var a := Create(person, [Card("Cassava", Some(animal), []), Card("Adwoa", Some(person), [])]);
            GetItemViewType(a, 0) == animal.layout && GetItemViewType(a, 1) == person.layout
  {
  }

  /** Appending [P1, P2] to [P1] adds only P2. */
  lemma DedupExample(p1: Listable, p2: Listable)
    requires p1 != p2
    ensures AddAll(Create(person, [p1]), [p1, p2]).listables == [p1, p2]
  {
    var kept := Absent([p1, p2], [p1]);
    AbsentCounts([p1, p2], [p1], p2);
    assert multiset(kept)[p2] == 1;
  }
}
