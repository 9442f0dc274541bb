/**
 * The generic class MyReadonlyCollection<T>: a collection whose elements are
 * copied once, at construction, into an array that nothing changes
 * afterwards, and that hands them out in order each time it is enumerated.
 */
module ReadonlyCollection {

  /** Enumerable.ToArray: a new array holding the items in order. */
  method ToArray<T>(items: seq<T>) returns (a: array<T>)
    ensures fresh(a)
    ensures a[..] == items
  {
    a := new T[|items|](i requires 0 <= i < |items| => items[i]);
  }

  class MyReadonlyCollection<T> {
    /** The readonly T[] field: a constant reference, assigned only by the constructors. */
    const internalCollection: array<T>
    /** The elements fixed at construction, in order. */
    ghost const Contents: seq<T>

    /** The array still holds the elements it was given at construction. */
    ghost predicate Valid()
      reads this, internalCollection
    {
      internalCollection[..] == Contents
    }

    /**
     * The params T[] constructor: zero or more explicit items. It hands
     * items.AsEnumerable() to the other constructor, so it too stores a
     * fresh copy, and a later write to the caller's array is not seen.
     */
    constructor FromParams(items: array<T>)
      ensures Valid() && fresh(internalCollection)
      ensures Contents == items[..]
    {
      var copy := ToArray(items[..]);
      internalCollection := copy;
      Contents := items[..];
    }

    /** The IEnumerable<T> constructor: consumes the items once and stores a fresh copy. */
    constructor FromEnumerable(items: seq<T>)
      ensures Valid() && fresh(internalCollection)
      ensures Contents == items
    {
      var copy := ToArray(items);
      internalCollection := copy;
      Contents := items;
    }

    /**
     * GetEnumerator: the foreach over the array yields each stored element
     * once, in order. The elements yielded by one full enumeration are
     * returned together.
     */
    method GetEnumerator() returns (yielded: seq<T>)
      requires Valid()
      ensures yielded == Contents
    {
      yielded := [];
      var i := 0;
      while i < internalCollection.Length
        invariant 0 <= i <= internalCollection.Length
        invariant yielded == internalCollection[..i]
      {
        yielded := yielded + [internalCollection[i]];
        i := i + 1;
      }
      assert internalCollection[..i] == internalCollection[..];
    }
  }

  /** Enumerating a collection twice yields the same elements both times. */
  method EnumerateTwice<T>(c: MyReadonlyCollection<T>) returns (first: seq<T>, second: seq<T>)
    requires c.Valid()
    ensures first == second == c.Contents
  {
    first := c.GetEnumerator();
    second := c.GetEnumerator();
  }

  /** The params constructor and the IEnumerable constructor, given the same items, enumerate alike. */
  method ParamsMatchesEnumerable<T>(args: array<T>) returns (fromParams: seq<T>, fromEnumerable: seq<T>)
    ensures fromParams == fromEnumerable == args[..]
  {
    var p := new MyReadonlyCollection.FromParams(args);
    var e := new MyReadonlyCollection.FromEnumerable(args[..]);
    fromParams := p.GetEnumerator();
    fromEnumerable := e.GetEnumerator();
  }

  /** The params constructor called with no arguments gives a collection that enumerates nothing. */
  method NoArguments<T>() returns (yielded: seq<T>)
    ensures yielded == []
  {
    var none := ToArray([]);
    var c := new MyReadonlyCollection.FromParams(none);
    yielded := c.GetEnumerator();
  }

  /** A write to the caller's array after construction does not change what the collection yields. */
  method SourceWriteNotSeen<T>(source: array<T>, i: nat, x: T) returns (before: seq<T>, after: seq<T>)
    requires i < source.Length
    modifies source
    ensures source[i] == x
    ensures before == after == old(source[..])
  {
    var c := new MyReadonlyCollection.FromParams(source);
    before := c.GetEnumerator();
    source[i] := x;
    after := c.GetEnumerator();
  }
}
