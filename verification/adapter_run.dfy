/** Sequences of adapter calls. A call whose position the backing list
    rejects throws, which ends the sequence: `Run` yields `None` from that
    call on. Whatever runs, the notification log only grows. */
module AdapterRun {
  import opened Listables
  import Adapter

  /** One call on the adapter's mutation surface. */
  datatype Call =
    | RemoveAt(position: int)
    | Clear
    | AddAt(position: int, listable: Listable)
    | ReplaceAt(position: int, listable: Listable)
    | AddAtAll(position: int, listables: seq<Listable>)
    | AddAll(listables: seq<Listable>)
    | Add(listable: Listable)

  /** The positions the backing list accepts: an insertion point may equal
      the size, a removal or replacement must name an existing item. */
  predicate InBounds(a: Adapter.Adapter, call: Call)
  {
    match call
    case RemoveAt(p) => 0 <= p < |a.listables|
    case ReplaceAt(p, _) => 0 <= p < |a.listables|
    case AddAt(p, _) => 0 <= p <= |a.listables|
    case AddAtAll(p, _) => 0 <= p <= |a.listables|
    case _ => true
  }

  /** How many notifications a call sends. */
  function Emitted(call: Call): nat
  {
    match call
    case RemoveAt(_) => 2
    case AddAtAll(_, _) => 2
    case AddAll(_) => 2
    case _ => 1
  }

  /** Performs one call, or `None` when its position is out of bounds. */
  function Apply(a: Adapter.Adapter, call: Call): (r: Option<Adapter.Adapter>)
    ensures r.Some? <==> InBounds(a, call)
    ensures r.Some? ==> |r.value.log| == |a.log| + Emitted(call)
    ensures r.Some? ==> a.log <= r.value.log
    ensures r.Some? ==> r.value.listableType == a.listableType
  {
    if !InBounds(a, call) then None
    else
      var b := match call
        case RemoveAt(p) => Adapter.RemoveAt(a, p)
        case Clear => Adapter.Clear(a)
        case AddAt(p, x) => Adapter.AddAt(a, p, x)
        case ReplaceAt(p, x) => Adapter.ReplaceAt(a, p, x)
        case AddAtAll(p, xs) => Adapter.AddAtAll(a, p, xs)
        case AddAll(xs) => Adapter.AddAll(a, xs)
        case Add(x) => Adapter.Add(a, x);
      assert b.log[..|a.log|] == a.log;
      Some(b)
  }

  /** Performs the calls in order, stopping at the first that throws: a
      caller that does not catch the list's out-of-bounds exception. */
  function Run(a: Adapter.Adapter, calls: seq<Call>): Option<Adapter.Adapter>
    decreases |calls|
  {
    if |calls| == 0 then Some(a)
    else
      match Apply(a, calls[0])
      case None => None
      case Some(b) => Run(b, calls[1..])
  }

  /** The log is append-only across any run that completes: the old log is a
      prefix of the new one, each call adds one or two notifications, and
      the default type never changes. */
  lemma {:induction false} RunExtendsLog(a: Adapter.Adapter, calls: seq<Call>)
    requires Run(a, calls).Some?
    ensures a.log <= Run(a, calls).value.log
    ensures |a.log| + |calls| <= |Run(a, calls).value.log| <= |a.log| + 2 * |calls|
    ensures Run(a, calls).value.listableType == a.listableType
    decreases |calls|
  {
    if |calls| > 0 {
      var b := Apply(a, calls[0]).value;
      RunExtendsLog(b, calls[1..]);
      var c := Run(b, calls[1..]).value;
      assert c.log[..|a.log|] == c.log[..|b.log|][..|a.log|];
    }
  }

  /** A run that meets an out-of-bounds call fails as a whole, whatever
      follows it. */
  lemma {:induction false} RunStopsAtFirstFailure(a: Adapter.Adapter, good: seq<Call>, bad: Call, rest: seq<Call>)
    requires Run(a, good).Some? && !InBounds(Run(a, good).value, bad)
    ensures Run(a, good + [bad] + rest).None?
    decreases |good|
  {
    if |good| == 0 {
      assert good + [bad] + rest == [bad] + rest;
    } else {
      var b := Apply(a, good[0]).value;
      assert (good + [bad] + rest)[1..] == good[1..] + [bad] + rest;
      RunStopsAtFirstFailure(b, good[1..], bad, rest);
    }
  }
}
