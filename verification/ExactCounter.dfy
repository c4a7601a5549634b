/** The exact reference counter: a map holding only positive counts. */
module ExactCounter {

  class MapReferenceCounter {
    var counters: map<nat, nat>
    ghost var outstanding: multiset<nat>

    /** The map counts exactly the references made and not yet taken back. */
    ghost predicate Valid()
      reads this
    {
      && (forall k :: k in counters <==> k in outstanding)
      && (forall k :: k in counters ==> counters[k] == outstanding[k])
    }

    constructor ()
      ensures Valid() && outstanding == multiset{}
    {
      counters, outstanding := map[], multiset{};
    }

    method Query(key: nat) returns (n: nat)
      requires Valid()
      ensures n == outstanding[key]
    {
      if key !in counters {
        n := 0;
      } else {
        n := counters[key];
      }
    }

    method Reference(key: nat)
      requires Valid()
      modifies this
      ensures Valid() && outstanding == old(outstanding) + multiset{key}
    {
      if key !in counters {
        counters := counters[key := 0];
      }
      counters := counters[key := counters[key] + 1];
      outstanding := outstanding + multiset{key};
    }

    /** The key must have a count. */
    method Dereference(key: nat)
      requires Valid() && key in outstanding
      modifies this
      ensures Valid() && outstanding == old(outstanding) - multiset{key}
    {
      counters := counters[key := counters[key] - 1];
      if counters[key] == 0 {
        counters := counters - {key};
      }
      outstanding := outstanding - multiset{key};
    }
  }
}
