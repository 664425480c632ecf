/** The doubly linked list that keeps cache keys in order of recency: a ring of elements around a
    sentinel, as in Go's container/list. */
module RecencyList {

  class Element {
    const value: string
    var prev: Element
    var next: Element

    /** An element of a ring by itself. */
    constructor (value: string)
      ensures this.value == value && prev == this && next == this
    {
      this.value := value;
      prev, next := this, this;
    }
  }

  class LinkedList {
    const root: Element
    ghost var elements: seq<Element>
    /** The sentinel and every element that has been in the list. */
    ghost var repr: set<Element>
    /** Where each element is; being a function it keeps the elements distinct. */
    ghost var position: map<Element, int>

    constructor ()
      ensures Valid() && elements == [] && fresh(repr)
    {
      root := new Element("");
      elements, position := [], map[];
      repr := {root};
    }

    /** The element at position i of the ring, which starts and ends at the sentinel. */
    ghost function At(i: int): Element
      reads this
    {
      if 0 <= i < |elements| then elements[i] else root
    }

    ghost predicate Valid()
      reads this, repr
    {
      && root in repr
      && root.next == At(0) && root.prev == At(|elements| - 1)
      && forall i :: 0 <= i < |elements| ==> InPlace(i)
    }

    ghost predicate InPlace(i: int)
      requires 0 <= i < |elements|
      reads this, repr
    {
      var e := elements[i];
      && e in repr && e != root
      && e in position && position[e] == i
      && e.next == At(i + 1) && e.prev == At(i - 1)
    }

    lemma Distinct(i: int, j: int)
      requires Valid() && 0 <= i < |elements| && 0 <= j < |elements|
      ensures elements[i] != root
      ensures elements[i] == elements[j] <==> i == j
    {
      assert InPlace(i) && InPlace(j);
    }

    method Back() returns (e: Element?)
      requires Valid()
      ensures elements == [] ==> e == null
      ensures elements != [] ==> e == elements[|elements| - 1]
    {
      if root.prev == root {
        assert elements != [] ==> InPlace(|elements| - 1);
        return null;
      }
      return root.prev;
    }

    /** Link e in after the sentinel. */
    method InsertFront(e: Element)
      requires Valid() && e != root && e !in elements
      modifies this, repr, e
      ensures Valid() && elements == [e] + old(elements) && repr == old(repr) + {e}
    {
      var first := root.next;
      assert first == At(0);
      if elements != [] {
        assert InPlace(0);
      }
      e.prev := root;
      e.next := first;
      first.prev := e;
      root.next := e;
      elements, repr := [e] + elements, repr + {e};
      position := (map x | x in position :: position[x] + 1)[e := 0];
      forall j | 0 <= j < |elements|
        ensures InPlace(j)
      {
        if j > 0 {
          assert old(InPlace(j - 1));
          assert elements[j] == old(elements)[j - 1];
        }
      }
      if |elements| > 1 {
        assert old(InPlace(|elements| - 1));
      }
    }

    method PushFront(value: string) returns (e: Element)
      requires Valid()
      modifies this, repr
      ensures Valid() && fresh(e) && e.value == value && elements == [e] + old(elements) && repr == old(repr) + {e}
    {
      e := new Element(value);
      InsertFront(e);
    }

    /** Empty the list. */
    method Init()
      requires Valid()
      modifies this, root
      ensures Valid() && elements == [] && repr == old(repr)
    {
      root.next := root;
      root.prev := root;
      elements := [];
    }

    /** Unlink the element at ghost position i. */
    method Remove(e: Element, ghost i: nat)
      requires Valid() && i < |elements| && elements[i] == e
      modifies this, repr
      ensures Valid() && elements == old(elements)[..i] + old(elements)[i + 1..] && repr == old(repr)
    {
      assert InPlace(i);
      ghost var was := elements;
      if i > 0 { assert InPlace(i - 1); }
      if i + 1 < |was| { assert InPlace(i + 1); }
      var before, after := e.prev, e.next;
      before.next := after;
      after.prev := before;
      elements := was[..i] + was[i + 1..];
      position := map x | x in position :: if position[x] > i then position[x] - 1 else position[x];
      forall j | 0 <= j < |elements|
        ensures InPlace(j)
      {
        var k := if j < i then j else j + 1;
        assert elements[j] == was[k] && old(InPlace(k));
        assert was[k] == before <==> k == i - 1;
        assert was[k] == after <==> k == i + 1;
        assert old(At(k + 1)) == (if k == i - 1 then e else At(j + 1));
        assert old(At(k - 1)) == (if k == i + 1 then e else At(j - 1));
      }
      if |elements| > 0 {
        assert elements[0] == was[if i == 0 then 1 else 0];
        assert elements[|elements| - 1] == was[if i == |was| - 1 then |was| - 2 else |was| - 1];
      }
    }

    method MoveToFront(e: Element, ghost i: nat)
      requires Valid() && i < |elements| && elements[i] == e
      modifies this, repr
      ensures Valid() && elements == [e] + old(elements)[..i] + old(elements)[i + 1..] && repr == old(repr)
    {
      assert InPlace(i) && InPlace(0);
      if root.next == e {
        assert elements == [e] + elements[..0] + elements[1..];
        return;
      }
      NotAfterRemoval(e, i);
      Remove(e, i);
      InsertFront(e);
    }

    lemma NotAfterRemoval(e: Element, i: nat)
      requires Valid() && i < |elements| && elements[i] == e
      ensures e != root && e !in elements[..i] + elements[i + 1..]
    {
      var rest := elements[..i] + elements[i + 1..];
      assert InPlace(i);
      forall j | 0 <= j < |rest|
        ensures rest[j] != e
      {
        assert InPlace(if j < i then j else j + 1);
      }
    }
  }
}
