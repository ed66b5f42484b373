/** The RentalStore model class: its three constructors and its identity equality. */
module RentalStores {
  import opened Wrappers
  import opened Domain

  datatype RentalStore = RentalStore(storeId: int, pickUpLocation: NString, dropOffLocation: NString)

  /** `new RentalStore()`: id 0, locations left null. */
  function DefaultStore(): (s: RentalStore)
    ensures s.storeId == 0 && s.pickUpLocation.None? && s.dropOffLocation.None?
  {
    RentalStore(0, None, None)
  }

  /** `new RentalStore(storeId, pickUpLocation, dropOffLocation)`. */
  function NewStore(storeId: int, pickUpLocation: NString, dropOffLocation: NString): (s: RentalStore)
    ensures s.storeId == storeId && s.pickUpLocation == pickUpLocation && s.dropOffLocation == dropOffLocation
  {
    RentalStore(storeId, pickUpLocation, dropOffLocation)
  }

  /** `new RentalStore(pickUpLocation, dropOffLocation)`: the id keeps its default, 0. */
  function NewStoreAt(pickUpLocation: NString, dropOffLocation: NString): (s: RentalStore)
    ensures s.storeId == 0 && s.pickUpLocation == pickUpLocation && s.dropOffLocation == dropOffLocation
  {
    RentalStore(0, pickUpLocation, dropOffLocation)
  }

  /** `Equals(RentalStore? other)`: a null argument is replaced by a default store, then ids are compared. */
  predicate Equals(store: RentalStore, other: Option<RentalStore>): (b: bool)
    ensures other.Some? ==> (b <==> store.storeId == other.value.storeId)
    // null compares as a default store, so it equals exactly the stores whose id is 0
    ensures other.None? ==> (b <==> store.storeId == 0)
  {
    var rentalStore := match other
                       case Some(o) => o
                       case None => DefaultStore();
    store.storeId == rentalStore.storeId
  }

  /** Equality looks at the id only: changing the other store's locations never changes it. */
  lemma EqualsIgnoresLocations(a: RentalStore, b: RentalStore, pickUp: NString, dropOff: NString)
    ensures Equals(a, Some(b.(pickUpLocation := pickUp, dropOffLocation := dropOff))) == Equals(a, Some(b))
  {
  }

  /** On non-null arguments equality is reflexive, symmetric and transitive. */
  lemma EqualsIsEquivalence(a: RentalStore, b: RentalStore, c: RentalStore)
    ensures Equals(a, Some(a))
    ensures Equals(a, Some(b)) <==> Equals(b, Some(a))
    ensures Equals(a, Some(b)) && Equals(b, Some(c)) ==> Equals(a, Some(c))
  {
  }

  /** A store built from locations alone equals null and the default store. */
  lemma LocationOnlyStoreEqualsNull(pickUpLocation: NString, dropOffLocation: NString)
    ensures Equals(NewStoreAt(pickUpLocation, dropOffLocation), None)
    ensures Equals(NewStoreAt(pickUpLocation, dropOffLocation), Some(DefaultStore()))
  {
  }
}
