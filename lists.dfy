/** `java.util.ArrayList`, as far as the modelled code uses it: a mutable list
    object whose contents are a sequence. */
module Lists {

  class ArrayList<T> {
    var items: seq<T>

    /** `new ArrayList<>()` */
    constructor Empty()
      ensures items == []
    {
      items := [];
    }

    /** `new ArrayList<>(other)`: a fresh list holding a copy of `other`'s items. */
    constructor Copy(other: ArrayList<T>)
      ensures items == other.items
    {
      items := other.items;
    }

    /** `add(x)`: appends at the end. */
    method Add(x: T)
      modifies this
      ensures items == old(items) + [x]
    {
      items := items + [x];
    }

    /** `addAll(other)`: appends all of `other`'s items, in order. */
    method AddAll(other: ArrayList<T>)
      modifies this
      ensures items == old(items) + old(other.items)
    {
      items := items + other.items;
    }

    /** `remove(0)`: takes the first item out and returns it. */
    method RemoveFirst() returns (x: T)
      requires items != []
      modifies this
      ensures x == old(items)[0] && items == old(items)[1..]
    {
      x := items[0];
      items := items[1..];
    }
  }
}
