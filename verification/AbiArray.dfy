/**
 The mirror of an indexed array handed to loadable builtins: a circular doubly linked
 list through a sentinel, rebuilt in place on every update.

 `Ring` is the shape of the links.  Every update is proved to leave a ring that walks
 to exactly the entries of the updated map, in ascending order; the walk back from the
 links is described on any link graph whatsoever, and is exact on a ring.
 */
module AbiArray {
  import opened CText
  import opened Option
  import opened SortedMap

  class Element {
    var index: int
    var value: Option<string>
    var next: Element?
    var previous: Element?

    constructor (index: int, value: Option<string>)
      ensures this.index == index && this.value == value
    {
      this.index, this.value, next, previous := index, value, null, null;
    }

    function Entry(): (int, string)
      reads this
    {
      (index, TextOf(value))
    }
  }

  ghost predicate Distinct(s: seq<Element>) {
    forall i, j :: 0 <= i < j < |s| ==> s[i] != s[j]
  }

  /** The entries met by following `next` links from `current` until the sentinel, a null link, or the fuel's end. */
  ghost function Walk(head: Element, current: Element?, fuel: nat): seq<(int, string)>
    reads *
  {
    if fuel == 0 || current == null || current == head then []
    else [current.Entry()] + Walk(head, current.next, fuel - 1)
  }

  /** The entries in order, with the sentinel on either side. */
  function At(head: Element, entries: seq<Element>, i: int): Element {
    if 0 <= i < |entries| then entries[i] else head
  }

  /** One circle through the sentinel: `next` and `previous` step along the entries and undo each other. */
  ghost predicate Ring(head: Element, entries: seq<Element>)
    reads head, entries
  {
    && Distinct(entries) && head !in entries
    && head.next == At(head, entries, 0) && head.previous == At(head, entries, |entries| - 1)
    && (forall i {:trigger entries[i].next} :: 0 <= i < |entries| ==> entries[i].next == At(head, entries, i + 1))
    && (forall i {:trigger entries[i].previous} ::
          0 <= i < |entries| ==> entries[i].previous == At(head, entries, i - 1))
  }

  /** Stepping forward and back, or back and forward, returns to the same node: sentinel included. */
  lemma RingInverse(head: Element, entries: seq<Element>, i: int)
    requires Ring(head, entries) && -1 <= i < |entries|
    ensures var x := At(head, entries, i);
            x.next != null && x.next.previous == x && x.previous != null && x.previous.next == x
  {
    var n := |entries|;
    assert i >= 0 ==> entries[i].next == At(head, entries, i + 1) && entries[i].previous == At(head, entries, i - 1);
    assert i + 1 < n ==> entries[i + 1].previous == At(head, entries, i);
    assert i >= 1 ==> entries[i - 1].next == At(head, entries, i);
    if n > 0 {
      assert entries[0].previous == At(head, entries, -1);
      assert entries[n - 1].next == At(head, entries, n);
    }
  }

  function EntriesOf(es: seq<Element>): (v: seq<(int, string)>)
    reads es
    ensures |v| == |es| && forall i :: 0 <= i < |v| ==> v[i] == es[i].Entry()
  {
    seq(|es|, i requires 0 <= i < |es| reads es => es[i].Entry())
  }

  /** On a ring the limited walk is never cut short: it reads exactly the entries. */
  lemma {:induction false} RingWalk(head: Element, entries: seq<Element>, i: nat)
    requires Ring(head, entries) && i <= |entries|
    ensures Walk(head, At(head, entries, i), |entries| + 1 - i) == EntriesOf(entries)[i..]
    decreases |entries| - i
  {
    if i < |entries| {
      RingWalk(head, entries, i + 1);
      assert entries[i] in entries && entries[i].next == At(head, entries, i + 1);
      assert EntriesOf(entries)[i..] == [entries[i].Entry()] + EntriesOf(entries)[i + 1..];
    }
  }

  ghost predicate NulFree(v: seq<(int, string)>) {
    forall p :: p in v ==> '\0' !in p.1
  }

  method ElementsFor(values: seq<(int, string)>) returns (made: seq<Element>)
    ensures Distinct(made) && fresh(set e | e in made)
    ensures EntriesOf(made) == values
  {
    made := [];
    for i := 0 to |values|
      invariant |made| == i && Distinct(made) && fresh(set e | e in made)
      invariant forall j :: 0 <= j < i ==> made[j].Entry() == values[j]
    {
      var e := new Element(values[i].0, Some(values[i].1));
      made := made + [e];
    }
  }

  method MakeElements(values: seq<(int, string)>) returns (made: seq<Element>)
    ensures Distinct(made) && fresh(set e | e in made)
    ensures EntriesOf(made) == StripValues(values)
  {
    made := ElementsFor(StripValues(values));
  }

  lemma StrippedNulFree(values: seq<(int, string)>)
    ensures NulFree(StripValues(values))
  {}

  class AbiArray {
    const head: Element
    var entries: seq<Element>
    var maxIndex: int
    var numElements: nat
    var first: Element?
    var lastref: Element?

    ghost function Values(): seq<(int, string)>
      reads this, entries
    {
      EntriesOf(entries)
    }

    /** The counters describe the entries, and the descriptor points at the sentinel. */
    ghost predicate Counted()
      reads this, entries
    {
      && numElements == |entries|
      && first == head && lastref == head
      && (entries == [] ==> maxIndex == -1)
      && (entries != [] ==>
            && (exists i :: 0 <= i < |entries| && entries[i].index == maxIndex)
            && forall i :: 0 <= i < |entries| ==> entries[i].index <= maxIndex)
    }

    ghost predicate Valid()
      reads this, head, entries
    {
      Ring(head, entries) && Counted() && NulFree(Values())
    }

    constructor (values: seq<(int, string)>)
      ensures Valid() && fresh(head) && fresh(set e | e in entries)
      ensures Values() == StripValues(SortByKey(values))
    {
      head := new Element(-1, None);
      entries, maxIndex, numElements, first, lastref := [], -1, 0, null, null;
      new;
      Replace(values);
    }

    method RelinkNodes()
      requires Distinct(entries) && head !in entries
      modifies head`next, head`previous, entries`next, entries`previous
      ensures Ring(head, entries) && Values() == old(Values())
    {
      head.next := At(head, entries, 0);
      head.previous := At(head, entries, |entries| - 1);
      for i := 0 to |entries|
        invariant head.next == At(head, entries, 0) && head.previous == At(head, entries, |entries| - 1)
        invariant forall j {:trigger entries[j].next} :: 0 <= j < i ==> entries[j].next == At(head, entries, j + 1)
        invariant forall j {:trigger entries[j].previous} ::
                    0 <= j < i ==> entries[j].previous == At(head, entries, j - 1)
      {
        entries[i].previous := if i == 0 then head else entries[i - 1];
        entries[i].next := if i + 1 < |entries| then entries[i + 1] else head;
      }
    }

    method LargestIndex() returns (max: int)
      ensures entries == [] ==> max == -1
      ensures entries != [] ==> exists i :: 0 <= i < |entries| && entries[i].index == max
      ensures forall i :: 0 <= i < |entries| ==> entries[i].index <= max
    {
      max := -1;
      for i := 0 to |entries|
        invariant i == 0 ==> max == -1
        invariant i > 0 ==> exists j :: 0 <= j < i && entries[j].index == max
        invariant forall j :: 0 <= j < i ==> entries[j].index <= max
      {
        if i == 0 || entries[i].index > max { max := entries[i].index; }
      }
    }

    method SetCounters()
      modifies this`maxIndex, this`numElements, this`first, this`lastref
      ensures Counted()
    {
      maxIndex := LargestIndex();
      numElements := |entries|;
      first, lastref := head, head;
    }

    /** Rewrites every link and counter from the list of entries. */
    method Relink()
      requires Distinct(entries) && head !in entries
      modifies this`maxIndex, this`numElements, this`first, this`lastref
      modifies head`next, head`previous, entries`next, entries`previous
      ensures Ring(head, entries) && Counted() && Values() == old(Values())
    {
      RelinkNodes();
      SetCounters();
    }

    method ReplaceSorted(sorted: seq<(int, string)>)
      modifies this, head
      ensures Valid() && fresh(set e | e in entries)
      ensures Values() == StripValues(sorted)
    {
      StrippedNulFree(sorted);
      entries := MakeElements(sorted);
      assert NulFree(Values());
      Relink();
    }

    /** Fresh elements for the sorted values, relinked. */
    method Replace(values: seq<(int, string)>)
      modifies this, head
      ensures Valid() && fresh(set e | e in entries)
      ensures Values() == StripValues(SortByKey(values))
    {
      ReplaceSorted(SortByKey(values));
    }

    /** Reads the entries back from the links; the limit is one more than the entries the mirror holds. */
    method ValuesFromLinks() returns (values: seq<(int, string)>)
      ensures values == Walk(head, head.next, |entries| + 1) && |values| <= |entries| + 1
      ensures Ring(head, entries) ==> values == Values()
    {
      var current := head.next;
      values := [];
      var limit := |entries| + 1;
      while current != null && current != head && |values| < limit
        invariant |values| <= limit
        invariant values + Walk(head, current, limit - |values|) == Walk(head, head.next, limit)
        decreases limit - |values|
      {
        values := values + [current.Entry()];
        current := current.next;
      }
      if Ring(head, entries) { RingWalk(head, entries, 0); }
    }

    method Insert(index: int, value: Option<string>)
      requires Valid() && IsCText(value)
      modifies this, head
      ensures Valid() && fresh(set e | e in entries)
      ensures Ascending(Values(), IntLt)
      ensures ToMap(Values()) == ToMap(old(Values()))[index := TextOf(value)]
    {
      var values := ValuesFromLinks();
      InsertedList(values, index, TextOf(value));
      Replace(Put(Collect(values, IntLt), index, TextOf(value), IntLt));
    }

    method Flush()
      modifies this, head
      ensures Valid() && fresh(set e | e in entries) && Values() == []
    {
      Replace([]);
    }
  }

  /** The list an insertion replaces the entries by reads back as the updated map, in order. */
  lemma InsertedList(values: seq<(int, string)>, index: int, value: string)
    requires NulFree(values) && '\0' !in value
    ensures var list := SortByKey(Put(Collect(values, IntLt), index, value, IntLt));
            StripValues(list) == list && Ascending(list, IntLt) && ToMap(list) == ToMap(values)[index := value]
  {
    var list := Put(Collect(values, IntLt), index, value, IntLt);
    IntOrder();
    assert Ascending(list, IntLt) && ToMap(list) == ToMap(values)[index := value] by {
      CollectDenotes(values, IntLt);
      PutIsUpdate(Collect(values, IntLt), index, value, IntLt);
    }
    assert DistinctKeys(list) by { AscendingIsDistinct(list, IntLt); }
    SortByKeyAscends(list);
    assert NulFree(SortByKey(list)) by {
      CollectFrom(values, IntLt);
      PutFrom(Collect(values, IntLt), index, value, IntLt);
      CollectFrom(list, IntLt);
    }
    StripIdentity(SortByKey(list));
  }

  lemma StripIdentity(v: seq<(int, string)>)
    requires NulFree(v)
    ensures StripValues(v) == v
  {
    forall i | 0 <= i < |v| ensures StripValues(v)[i] == v[i] { assert v[i] in v; }
  }

  // ----- whole runs

  datatype Update = Set(index: int, value: Option<string>) | Clear

  function Step(m: map<int, string>, op: Update): map<int, string> {
    match op
    case Clear => map[]
    case Set(i, v) => m[i := TextOf(v)]
  }

  function Updated(m: map<int, string>, ops: seq<Update>): map<int, string> {
    if ops == [] then m else Step(Updated(m, ops[..|ops| - 1]), ops[|ops| - 1])
  }

  method RunUpdate(a: AbiArray, op: Update)
    requires a.Valid() && (op.Set? ==> IsCText(op.value))
    modifies a, a.head
    ensures a.Valid() && ToMap(a.Values()) == Step(ToMap(old(a.Values())), op) && Ascending(a.Values(), IntLt)
  {
    match op {
      case Set(i, v) => a.Insert(i, v);
      case Clear => a.Flush();
    }
  }

  lemma UpdatedStep(m: map<int, string>, ops: seq<Update>, n: nat)
    requires n < |ops|
    ensures Updated(m, ops[..n + 1]) == Step(Updated(m, ops[..n]), ops[n])
  {
    assert ops[..n + 1][..n] == ops[..n];
  }

  /** Any run of insertions and flushes leaves a ring over exactly the entries of the updated map, in order. */
  method RunUpdates(a: AbiArray, ops: seq<Update>)
    requires a.Valid()
    requires forall n :: 0 <= n < |ops| && ops[n].Set? ==> IsCText(ops[n].value)
    modifies a, a.head
    ensures a.Valid() && ToMap(a.Values()) == Updated(ToMap(old(a.Values())), ops)
    ensures if ops == [] then a.Values() == old(a.Values()) else Ascending(a.Values(), IntLt)
  {
    ghost var start := a.Values();
    for n := 0 to |ops|
      invariant a.Valid() && ToMap(a.Values()) == Updated(ToMap(start), ops[..n])
      invariant if n == 0 then a.Values() == start else Ascending(a.Values(), IntLt)
    {
      UpdatedStep(ToMap(start), ops, n);
      RunUpdate(a, ops[n]);
    }
    assert ops[..|ops|] == ops;
  }
}
