/** Collecting a form's answers: the adapter walks its items in order and
    records each form-input element's `value` under its `name`, so a name
    that occurs twice keeps the value of its last occurrence. */
module FormValues {
  import opened Listables

  /** The names carried by the form-input items of `items`. */
  function FormNames(items: seq<Listable>): set<string>
  {
    set x | x in items && x.FormInput? :: x.name
  }

  /** Position `i` holds a form input and no later form input shares its name. */
  predicate IsLastWithName(items: seq<Listable>, i: int)
    requires 0 <= i < |items|
  {
    && items[i].FormInput?
    && forall j :: i < j < |items| && items[j].FormInput? ==> items[j].name != items[i].name
  }

  /** The name-to-value map built by scanning `items` front to back. The keys
      are exactly the form-input names, and each key maps to the value of the
      last form input bearing that name; other items contribute nothing. */
  function Retrieve(items: seq<Listable>): (formData: map<string, string>)
    ensures formData.Keys == FormNames(items)
    ensures forall i {:trigger IsLastWithName(items, i)} :: 0 <= i < |items| && IsLastWithName(items, i) ==>
              items[i].name in formData && formData[items[i].name] == items[i].value
    decreases |items|
  {
    if |items| == 0 then map[]
    else
      var front := items[..|items| - 1];
      var x := items[|items| - 1];
      var m := Retrieve(front);
      assert items == front + [x];
      assert forall i :: 0 <= i < |front| ==> front[i] == items[i];
      assert forall i :: 0 <= i < |front| && IsLastWithName(items, i) ==> IsLastWithName(front, i);
      if x.FormInput? then m[x.name := x.value] else m
  }

  /** Scanning one more item: a form input overwrites its name, anything else
      leaves the map alone. */
  lemma RetrieveSnoc(items: seq<Listable>, x: Listable)
    ensures Retrieve(items + [x]) ==
            if x.FormInput? then Retrieve(items)[x.name := x.value] else Retrieve(items)
  {
    assert (items + [x])[..|items|] == items;
  }

  /** The scan is a left fold, so scanning two lists in turn is the union of
      their maps with the later list winning on shared names. */
  lemma {:induction false} RetrieveAppend(a: seq<Listable>, b: seq<Listable>)
    ensures Retrieve(a + b) == Retrieve(a) + Retrieve(b)
    decreases |b|
  {
    if |b| == 0 {
      assert a + b == a;
    } else {
      var front := b[..|b| - 1];
      var x := b[|b| - 1];
      assert b == front + [x];
      assert a + b == (a + front) + [x];
      RetrieveAppend(a, front);
      RetrieveSnoc(a + front, x);
      RetrieveSnoc(front, x);
      if x.FormInput? {
        UnionUpdate(Retrieve(a), Retrieve(front), x.name, x.value);
      }
    }
  }

  /** Updating the right operand of a union is updating the union. */
  lemma UnionUpdate(m1: map<string, string>, m2: map<string, string>, k: string, v: string)
    ensures (m1 + m2)[k := v] == m1 + m2[k := v]
  {
  }

  /** The form-input items of `items`: every one of them and nothing else. */
  function FormInputsOf(items: seq<Listable>): (inputs: seq<Listable>)
    ensures forall x :: x in inputs ==> x in items && x.FormInput?
    ensures forall x :: x in items && x.FormInput? ==> x in inputs
    decreases |items|
  {
    if |items| == 0 then []
    else
      var front := items[..|items| - 1];
      var x := items[|items| - 1];
      assert items == front + [x];
      FormInputsOf(front) + (if x.FormInput? then [x] else [])
  }

  /** Non-form items contribute nothing: dropping them does not change the
      collected values. */
  lemma {:induction false} RetrieveOnlyFormInputsMatter(items: seq<Listable>)
    ensures Retrieve(FormInputsOf(items)) == Retrieve(items)
    decreases |items|
  {
    if |items| > 0 {
      var front := items[..|items| - 1];
      var x := items[|items| - 1];
      assert items == front + [x];
      var inputs := FormInputsOf(front);
      RetrieveOnlyFormInputsMatter(front);
      if x.FormInput? {
        calc {
          Retrieve(FormInputsOf(items));
          { assert FormInputsOf(items) == inputs + [x]; }
          Retrieve(inputs + [x]);
          { RetrieveSnoc(inputs, x); }
          Retrieve(inputs)[x.name := x.value];
          Retrieve(front)[x.name := x.value];
          { RetrieveSnoc(front, x); }
          Retrieve(items);
        }
      } else {
        calc {
          Retrieve(FormInputsOf(items));
          { assert FormInputsOf(items) == inputs; }
          Retrieve(front);
          { RetrieveSnoc(front, x); }
          Retrieve(items);
        }
      }
    }
  }
}
