/** The list of callbacks of WOscMethod.h, which doubles its buffer when it is full. */
module CallbackLists {
  /** A registered method; only its identity matters here. */
  class Method {
    constructor () {}
  }

  class CallbackList {
    var methods: array<Method?>
    var count: nat

    ghost predicate Valid()
      reads this, methods
    {
      && count <= methods.Length && methods.Length > 0
      && forall i | 0 <= i < count :: methods[i] != null
    }

    ghost function Contents(): seq<Method?>
      reads this, methods
      requires Valid()
    {
      methods[..count]
    }

    /** An empty list; with no capacity at all it is unusable, since doubling cannot enlarge it. */
    constructor (initialCapacity: nat)
      ensures fresh(methods) && methods.Length == initialCapacity && count == 0
      ensures Valid() <==> initialCapacity > 0
      ensures Valid() ==> Contents() == []
    {
      methods := new Method?[initialCapacity](_ => null);
      count := 0;
    }

    method Double()
      requires Valid()
      modifies this`methods
      ensures Valid() && fresh(methods) && methods.Length == 2 * old(methods.Length)
      ensures Contents() == old(Contents())
    {
      var oldMethods := methods;
      var newMethods := new Method?[methods.Length * 2](_ => null);
      var i := 0;
      while i < oldMethods.Length
        invariant 0 <= i <= oldMethods.Length && newMethods[..i] == oldMethods[..i]
      {
        newMethods[i] := oldMethods[i];
        i := i + 1;
      }
      assert newMethods[..count] == newMethods[..i][..count] == oldMethods[..count];
      assert forall j | 0 <= j < count :: newMethods[j] == newMethods[..count][j] == oldMethods[j];
      methods := newMethods;
    }

    method Append(method_: Method)
      requires Valid()
      modifies this, methods
      ensures Valid() && (methods == old(methods) || fresh(methods))
      ensures Contents() == old(Contents()) + [method_]
      ensures methods.Length == if old(count) < old(methods.Length)
                                then old(methods.Length)
                                else 2 * old(methods.Length)
    {
      if count >= methods.Length {
        Double();
      }
      methods[count] := method_;
      count := count + 1;
      assert methods[..count] == methods[..count - 1] + [method_];
    }

    /** Forgets the items and keeps the buffer. */
    method Reset()
      requires Valid()
      modifies this`count
      ensures Valid() && Contents() == []
    {
      count := 0;
    }
  }
}
