// The kernel's linked list and the ready queue built on it.  The list keeps a
// pointer to its first and to its last element; SortedInsert puts a new
// element behind those with the same key.

module Lists {
  import opened Basics

  // An item with its sort key.
  datatype Keyed<+T> = Keyed(key: nat, item: T)

  // ------------------------------------------------------------- on sequences

  // Where SortedInsert puts a key: before the first larger one.
  function Place<T>(s: seq<Keyed<T>>, key: nat): (i: nat)
    ensures i <= |s|
    ensures i < |s| ==> key < s[i].key
    ensures forall j :: 0 <= j < i ==> s[j].key <= key
  {
    if s == [] || key < s[0].key then 0 else 1 + Place(s[1..], key)
  }

  // A sequence with one more element, at place k.
  function Spliced<T>(s: seq<T>, k: nat, e: T): seq<T>
    requires k <= |s|
  {
    s[..k] + [e] + s[k..]
  }

  function Inserted<T>(s: seq<Keyed<T>>, e: Keyed<T>): seq<Keyed<T>> {
    Spliced(s, Place(s, e.key), e)
  }

  predicate Sorted<T>(s: seq<Keyed<T>>) {
    forall i, j :: 0 <= i < j < |s| ==> s[i].key <= s[j].key
  }

  // MAIN: inserting keeps the keys sorted.
  lemma InsertSorted<T>(s: seq<Keyed<T>>, e: Keyed<T>)
    requires Sorted(s)
    ensures Sorted(Inserted(s, e))
  {
    var p := Place(s, e.key);
    var s' := Inserted(s, e);
    forall i, j | 0 <= i < j < |s'|
      ensures s'[i].key <= s'[j].key
    {
      if i == p {
        assert s[p].key <= s[j - 1].key;
      }
    }
  }

  // The items with one key, in order.
  function WithKey<T>(s: seq<Keyed<T>>, key: nat): seq<T> {
    if s == [] then []
    else WithKey(s[..|s| - 1], key) + if s[|s| - 1].key == key then [s[|s| - 1].item] else []
  }

  lemma {:induction false} WithKeyConcat<T>(a: seq<Keyed<T>>, b: seq<Keyed<T>>, key: nat)
    ensures WithKey(a + b, key) == WithKey(a, key) + WithKey(b, key)
    decreases |b|
  {
    if b == [] {
      assert a + b == a;
    } else {
      var n := |b| - 1;
      assert (a + b)[..|a + b| - 1] == a + b[..n];
      WithKeyConcat(a, b[..n], key);
    }
  }

  lemma {:induction false} NoneWithKey<T>(s: seq<Keyed<T>>, key: nat)
    requires forall i :: 0 <= i < |s| ==> s[i].key != key
    ensures WithKey(s, key) == []
    decreases |s|
  {
    if s != [] {
      NoneWithKey(s[..|s| - 1], key);
    }
  }

  // MAIN: inserting is stable: for every key, first in is first in line.
  lemma InsertStable<T>(s: seq<Keyed<T>>, e: Keyed<T>, key: nat)
    requires Sorted(s)
    ensures WithKey(Inserted(s, e), key) == WithKey(s, key) + if key == e.key then [e.item] else []
  {
    var p := Place(s, e.key);
    NoneBehind(s, e.key);
    assert s == s[..p] + s[p..];
    WithKeyAround(s[..p], e, s[p..], key);
  }

  lemma NoneBehind<T>(s: seq<Keyed<T>>, key: nat)
    requires Sorted(s)
    ensures WithKey(s[Place(s, key)..], key) == []
  {
    LargerBehind(s, key);
    NoneWithKey(s[Place(s, key)..], key);
  }

  lemma WithKeyOne<T>(a: seq<Keyed<T>>, e: Keyed<T>, key: nat)
    ensures WithKey(a + [e], key) == WithKey(a, key) + if key == e.key then [e.item] else []
  {
    assert (a + [e])[..|a|] == a;
  }

  // An element in front of others with other keys might as well be last.
  lemma WithKeyAround<T>(a: seq<Keyed<T>>, e: Keyed<T>, b: seq<Keyed<T>>, key: nat)
    requires WithKey(b, e.key) == []
    ensures WithKey(a + [e] + b, key) == WithKey(a + b, key) + if key == e.key then [e.item] else []
  {
    WithKeyConcat(a + [e], b, key);
    WithKeyConcat(a, b, key);
    WithKeyOne(a, e, key);
  }

  lemma LargerBehind<T>(s: seq<Keyed<T>>, key: nat)
    requires Sorted(s)
    ensures var b := s[Place(s, key)..];
      forall i :: 0 <= i < |b| ==> b[i].key != key
  {
    var p := Place(s, key);
    forall i | p <= i < |s|
      ensures s[i].key > key
    {
      assert s[p].key <= s[i].key;
    }
  }

  lemma PlaceIs<T>(s: seq<Keyed<T>>, key: nat, k: nat)
    requires k <= |s| && (forall j :: 0 <= j < k ==> s[j].key <= key) && (k < |s| ==> key < s[k].key)
    ensures Place(s, key) == k
  {
  }

  // ------------------------------------------------------------- linked lists

  class ListElement<T> {
    var next: ListElement?<T>
    const key: nat
    const item: T

    constructor (item: T, key: nat)
      ensures this.item == item && this.key == key && next == null
    {
      this.item, this.key := item, key;
      next := null;
    }
  }

  // Each element points to the next one, and the last to end.
  ghost predicate Chain<T>(s: seq<ListElement<T>>, end: ListElement?<T>)
    reads s
  {
    forall i {:trigger s[i].next} :: 0 <= i < |s| ==> s[i].next == if i + 1 < |s| then s[i + 1] else end
  }

  lemma ChainConcat<T>(a: seq<ListElement<T>>, b: seq<ListElement<T>>, end: ListElement?<T>)
    requires Chain(a, if b == [] then end else b[0]) && Chain(b, end)
    ensures Chain(a + b, end)
  {
    var s := a + b;
    forall i | 0 <= i < |s|
      ensures s[i].next == if i + 1 < |s| then s[i + 1] else end
    {
      if i >= |a| {
        assert s[i] == b[i - |a|];
      }
    }
  }

  lemma ChainSplit<T>(s: seq<ListElement<T>>, k: nat, end: ListElement?<T>)
    requires k <= |s| && Chain(s, end)
    ensures Chain(s[..k], if k < |s| then s[k] else end) && Chain(s[k..], end)
  {
    forall i | 0 <= i < |s[k..]|
      ensures s[k..][i].next == if i + 1 < |s[k..]| then s[k..][i + 1] else end
    {
      assert s[k..][i] == s[k + i];
    }
  }

  function Entries<T>(spine: seq<ListElement<T>>): (s: seq<Keyed<T>>)
    ensures |s| == |spine|
    ensures forall i :: 0 <= i < |s| ==> s[i] == Keyed(spine[i].key, spine[i].item)
  {
    seq(|spine|, i requires 0 <= i < |spine| => Keyed(spine[i].key, spine[i].item))
  }

  lemma EntriesSpliced<T>(spine: seq<ListElement<T>>, k: nat, e: ListElement<T>)
    requires k <= |spine|
    ensures Entries(Spliced(spine, k, e)) == Spliced(Entries(spine), k, Keyed(e.key, e.item))
  {
    var s, t := Entries(Spliced(spine, k, e)), Spliced(Entries(spine), k, Keyed(e.key, e.item));
    assert |s| == |t|;
    forall i | 0 <= i < |s|
      ensures s[i] == t[i]
    {
    }
  }

  class List<T> {
    var first: ListElement?<T>
    var last: ListElement?<T>
    // the elements, in order, and all that belongs to the list
    ghost var spine: seq<ListElement<T>>
    ghost var Repr: set<object>

    // One chain from first to last, without a cycle.
    ghost predicate Valid()
      reads this, Repr
    {
      && this in Repr && (forall e :: e in spine ==> e in Repr)
      && first == (if spine == [] then null else spine[0])
      && last == (if spine == [] then null else spine[|spine| - 1])
      && Chain(spine, null) && (forall i, j :: 0 <= i < j < |spine| ==> spine[i] != spine[j])
    }

    ghost function Contents(): (s: seq<Keyed<T>>)
      reads this
      ensures |s| == |spine|
    {
      Entries(spine)
    }

    constructor ()
      ensures Valid() && Contents() == [] && fresh(Repr)
    {
      first, last := null, null;
      spine, Repr := [], {this};
    }

    predicate IsEmpty()
      requires Valid()
      reads this, Repr
      ensures IsEmpty() <==> Contents() == []
    {
      first == null
    }

    // Only new elements join the list.
    method Append(item: T)
      requires Valid()
      modifies Repr
      ensures Valid() && Contents() == old(Contents()) + [Keyed(0, item)]
      ensures fresh(Repr - old(Repr))
    {
      var element := new ListElement(item, 0);
      EntriesSpliced(spine, |spine|, element);
      assert Spliced(Contents(), |spine|, Keyed(0, item)) == Contents() + [Keyed(0, item)];
      AddLast(element);
    }

    // The element goes behind the last one.
    method AddLast(element: ListElement<T>)
      requires Valid() && element !in spine && element.next == null
      modifies Repr
      ensures Valid() && spine == Spliced(old(spine), |old(spine)|, element) && Repr == old(Repr) + {element}
    {
      ghost var s := spine;
      assert Spliced(s, |s|, element) == s + [element];
      if first == null {
        first := element;
        last := element;
      } else {
        last.next := element;
        last := element;
      }
      spine, Repr := s + [element], Repr + {element};
      ChainConcat(s, [element], null);
    }

    // Or before the first one.
    method AddFirst(element: ListElement<T>)
      requires Valid() && element !in spine && element.next == null
      modifies this, element
      ensures Valid() && spine == Spliced(old(spine), 0, element) && Repr == old(Repr) + {element}
    {
      ghost var s := spine;
      assert Spliced(s, 0, element) == [element] + s;
      if first == null {
        first := element;
        last := element;
      } else {
        element.next := first;
        first := element;
      }
      spine, Repr := [element] + s, Repr + {element};
      ChainConcat([element], s, null);
    }

    method Prepend(item: T)
      requires Valid()
      modifies this
      ensures Valid() && Contents() == [Keyed(0, item)] + old(Contents())
      ensures fresh(Repr - old(Repr))
    {
      var element := new ListElement(item, 0);
      EntriesSpliced(spine, 0, element);
      assert Spliced(Contents(), 0, Keyed(0, item)) == [Keyed(0, item)] + Contents();
      AddFirst(element);
    }

    // The element goes behind the i-th.
    method AddAfter(ptr: ListElement<T>, element: ListElement<T>, ghost i: nat)
      requires Valid() && element !in spine && element.next == null && i + 1 < |spine| && ptr == spine[i]
      modifies Repr, element
      ensures Valid() && spine == Spliced(old(spine), i + 1, element) && Repr == old(Repr) + {element}
    {
      ghost var s := spine;
      ghost var a, b := s[..i + 1], s[i + 1..];
      ChainSplit(s, i + 1, null);
      element.next := ptr.next;
      ptr.next := element;
      spine, Repr := a + [element] + b, Repr + {element};
      assert Chain(a, element);
      assert Chain(b, null);
      ChainConcat(a, [element], s[i + 1]);
      ChainConcat(a + [element], b, null);
    }

    // The last element of those that the new key goes behind.
    method LastNotLarger(sortKey: nat) returns (ptr: ListElement<T>, ghost i: nat)
      requires Valid() && first != null && first.key <= sortKey
      ensures i < |spine| && ptr == spine[i] && Place(Contents(), sortKey) == i + 1
    {
      ptr, i := first, 0;
      while ptr.next != null && sortKey >= ptr.next.key
        invariant i < |spine| && ptr == spine[i]
        invariant forall j :: 0 <= j <= i ==> Contents()[j].key <= sortKey
        decreases |spine| - i
      {
        ptr, i := ptr.next, i + 1;
      }
      PlaceIs(Contents(), sortKey, i + 1);
    }

    method SortedInsert(item: T, sortKey: nat)
      requires Valid()
      modifies Repr
      ensures Valid() && Contents() == Inserted(old(Contents()), Keyed(sortKey, item))
      ensures fresh(Repr - old(Repr))
    {
      var element := new ListElement(item, sortKey);
      EntriesSpliced(spine, Place(Contents(), sortKey), element);
      LinkSorted(element, sortKey);
    }

    method LinkSorted(element: ListElement<T>, sortKey: nat)
      requires Valid() && element !in spine && element.next == null
      modifies Repr, element
      ensures Valid() && spine == Spliced(old(spine), Place(old(Contents()), sortKey), element) && Repr == old(Repr) + {element}
    {
      if IsEmpty() {
        AddFirst(element);
      } else if sortKey < first.key {
        PlaceIs(Contents(), sortKey, 0);
        AddFirst(element);
      } else {
        var ptr, i := LastNotLarger(sortKey);
        if ptr.next != null {
          AddAfter(ptr, element, i);
        } else {
          AddLast(element);
        }
      }
    }

    // Takes the first element off; None when there is none.
    method SortedRemove() returns (removed: Option<Keyed<T>>)
      requires Valid()
      modifies this
      ensures Valid()
      ensures old(Contents()) == [] ==> removed == None && Contents() == []
      ensures old(Contents()) != [] ==> removed == Some(old(Contents())[0]) && Contents() == old(Contents())[1..]
      ensures Repr == old(Repr)
    {
      if IsEmpty() {
        return None;
      }
      removed := Some(Keyed(first.key, first.item));
      ChainSplit(spine, 1, null);
      if first == last {
        first := null;
        last := null;
      } else {
        first := first.next;
      }
      spine := spine[1..];
    }
  }
}
