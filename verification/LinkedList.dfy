/** The part of Go's `container/list` that the server uses: elements are handles into the list. */
module LinkedList {
  class Element<T> {
    const value: T

    constructor (value: T)
      ensures this.value == value
    {
      this.value := value;
    }
  }

  function WithoutElement<T>(items: seq<Element<T>>, e: Element<T>): seq<Element<T>> {
    if items == [] then []
    else if items[0] == e then items[1..]
    else [items[0]] + WithoutElement(items[1..], e)
  }

  function Values<T>(items: seq<Element<T>>): (r: seq<T>)
    ensures |r| == |items|
  {
    seq(|items|, k requires 0 <= k < |items| => items[k].value)
  }

  class List<T> {
    var items: seq<Element<T>>

    constructor ()
      ensures items == []
    {
      items := [];
    }

    method PushBack(value: T) returns (e: Element<T>)
      modifies this
      ensures fresh(e) && e.value == value && items == old(items) + [e]
    {
      e := new Element(value);
      items := items + [e];
    }

    method Remove(e: Element<T>)
      modifies this
      ensures items == WithoutElement(old(items), e)
    {
      items := WithoutElement(items, e);
    }
  }
}
