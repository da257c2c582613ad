/** The view model of the main screen (model/MainViewModel.kt), in the revision
    wired straight to the remote database: a list of cities and a user, driven
    by the database listener's callbacks, plus entry points that only issue
    database calls. Asynchronous geocoding results arrive as parameters. */
module MainViewModel {
  import opened Wrappers
  import opened Cities

  /** A call the view model makes on the remote database. */
  datatype DbCall = DbAdd(city: City) | DbRemove(city: City)

  /** The observable state: the `_cities` list and the `_user` value. */
  datatype ViewModel = ViewModel(cities: seq<City>, user: Option<User>)

  /** What an entry point leaves behind: the state and the database calls made. */
  datatype Reaction = Reaction(vm: ViewModel, calls: seq<DbCall>)

  /** A freshly built view model: no cities and no user. */
  function Initial(): ViewModel
  {
    ViewModel([], None)
  }

  /** `onCityAdded`: the city goes at the end of the list; everything before it
      and the user stay as they were. */
  function OnCityAdded(vm: ViewModel, city: City): (r: ViewModel)
    ensures r.user == vm.user
    ensures |r.cities| == |vm.cities| + 1
    ensures r.cities[..|vm.cities|] == vm.cities && r.cities[|vm.cities|] == city
  {
    vm.(cities := vm.cities + [city])
  }

  /** Position of the first occurrence of `x` in `s`. */
  function IndexOf(s: seq<City>, x: City): (i: nat)
    requires x in s
    ensures i < |s| && s[i] == x
    ensures forall k :: 0 <= k < i ==> s[k] != x
    decreases |s|
  {
    if s[0] == x then 0 else 1 + IndexOf(s[1..], x)
  }

  /** `MutableList.remove(element)`: drops the first element equal to `x`, and
      nothing at all when there is none. */
  function RemoveFirst(s: seq<City>, x: City): (r: seq<City>)
    ensures x !in s ==> r == s
    ensures x in s ==> |r| == |s| - 1
    decreases |s|
  {
    if |s| == 0 then []
    else if s[0] == x then s[1..]
    else
      assert s == [s[0]] + s[1..];
      [s[0]] + RemoveFirst(s[1..], x)
  }

  /** The element removed is the first occurrence, and the others keep their
      order. */
  lemma {:induction false} RemoveFirstAt(s: seq<City>, x: City)
    requires x in s
    ensures RemoveFirst(s, x) == s[..IndexOf(s, x)] + s[IndexOf(s, x) + 1..]
    decreases |s|
  {
    if s[0] != x {
      var t := s[1..];
      var j := IndexOf(t, x);
      RemoveFirstAt(t, x);
      assert IndexOf(s, x) == j + 1;
      assert s[..j + 1] == [s[0]] + t[..j];
      assert s[j + 2..] == t[j + 1..];
      assert RemoveFirst(s, x) == [s[0]] + (t[..j] + t[j + 1..]);
    }
  }

  /** Removing the first occurrence takes exactly one copy of `x` out of the
      list's contents when there is one, and nothing otherwise. */
  lemma {:induction false} RemoveFirstContents(s: seq<City>, x: City)
    ensures multiset(RemoveFirst(s, x)) == multiset(s) - multiset{x}
    decreases |s|
  {
    if |s| > 0 {
      assert s == [s[0]] + s[1..];
      if s[0] != x {
        RemoveFirstContents(s[1..], x);
        assert RemoveFirst(s, x) == [s[0]] + RemoveFirst(s[1..], x);
      }
    }
  }

  /** `onCityRemoved`: the first equal city leaves the list; the user stays. */
  function OnCityRemoved(vm: ViewModel, city: City): (r: ViewModel)
    ensures r.cities == RemoveFirst(vm.cities, city) && r.user == vm.user
    ensures city !in vm.cities ==> r == vm
  {
    vm.(cities := RemoveFirst(vm.cities, city))
  }

  /** `onCityUpdated` is left unimplemented: the state does not change. */
  function OnCityUpdated(vm: ViewModel, city: City): (r: ViewModel)
    ensures r.cities == vm.cities && r.user == vm.user
  {
    vm
  }

  /** `onUserLoaded`: the user becomes the loaded one; the list stays. */
  function OnUserLoaded(vm: ViewModel, user: User): (r: ViewModel)
    ensures r.user == Some(user) && r.cities == vm.cities
  {
    vm.(user := Some(user))
  }

  /** `onUserSignOut` is left unimplemented: the user is not cleared. */
  function OnUserSignOut(vm: ViewModel): (r: ViewModel)
    ensures r.cities == vm.cities && r.user == vm.user
  {
    vm
  }

  /** A city added and then removed through the listener leaves the view
      model as it was, when the city was not listed before. */
  lemma AddThenRemoveRestores(vm: ViewModel, city: City)
    requires city !in vm.cities
    ensures OnCityRemoved(OnCityAdded(vm, city), city) == vm
  {
    var s := vm.cities + [city];
    RemoveFirstAt(s, city);
    var i := IndexOf(s, city);
    assert forall k :: 0 <= k < |vm.cities| ==> s[k] == vm.cities[k];
    assert i == |vm.cities|;
    assert s[..i] == vm.cities;
  }

  /** `remove(city)`: asks the database to remove the city; the list changes
      only when the listener later reports the removal. */
  function Remove(vm: ViewModel, city: City): (r: Reaction)
    ensures r.vm == vm && r.calls == [DbRemove(city)]
  {
    Reaction(vm, [DbRemove(city)])
  }

  /** `add(name, location)` with an optional location: adds unconditionally. */
  function AddNamed(vm: ViewModel, name: string, location: Option<LatLng>): (r: Reaction)
    ensures r.vm == vm
    ensures |r.calls| == 1 && r.calls[0].DbAdd?
    ensures r.calls[0].city.name == name && r.calls[0].city.location == location
  {
    Reaction(vm, [DbAdd(NewCity(name, location))])
  }

  /** `add(name)`: the geocoding callback delivers a latitude and a longitude,
      each possibly null; the city is added only when both are present. */
  function AddByName(vm: ViewModel, name: string, lat: Option<real>, lng: Option<real>): (r: Reaction)
    ensures r.vm == vm
    ensures |r.calls| <= 1
    ensures r.calls != [] <==> lat.Some? && lng.Some?
    ensures r.calls != [] ==>
      (r.calls[0].DbAdd? && r.calls[0].city.name == name
       && r.calls[0].city.location == Some(LatLng(lat.value, lng.value)))
  {
    if lat.Some? && lng.Some? then Reaction(vm, [DbAdd(NewCity(name, Some(LatLng(lat.value, lng.value))))])
    else Reaction(vm, [])
  }

  /** `add(location)`: the reverse-geocoding callback delivers a possibly null
      name; the city is added only when there is one, at the given location. */
  function AddByLocation(vm: ViewModel, location: LatLng, name: Option<string>): (r: Reaction)
    ensures r.vm == vm
    ensures |r.calls| <= 1
    ensures r.calls != [] <==> name.Some?
    ensures r.calls != [] ==>
      (r.calls[0].DbAdd? && r.calls[0].city.name == name.value
       && r.calls[0].city.location == Some(location))
  {
    match name
    case Some(n) => Reaction(vm, [DbAdd(NewCity(n, Some(location)))])
    case None => Reaction(vm, [])
  }

  /** A notification of the database listener. */
  datatype ListenerEvent =
    | UserLoaded(user: User)
    | UserSignOut
    | CityAdded(city: City)
    | CityUpdated(city: City)
    | CityRemoved(city: City)

  /** The callback a notification reaches. Only the user notifications touch
      the user, and only additions and removals touch the list. */
  function Dispatch(vm: ViewModel, e: ListenerEvent): (r: ViewModel)
    ensures e.UserLoaded? ==> r.user == Some(e.user)
    ensures !e.UserLoaded? ==> r.user == vm.user
    ensures !e.CityAdded? && !e.CityRemoved? ==> r.cities == vm.cities
  {
    match e
    case UserLoaded(u) => OnUserLoaded(vm, u)
    case UserSignOut => OnUserSignOut(vm)
    case CityAdded(c) => OnCityAdded(vm, c)
    case CityUpdated(c) => OnCityUpdated(vm, c)
    case CityRemoved(c) => OnCityRemoved(vm, c)
  }

  /** Notifications handled one after another. */
  function Replay(vm: ViewModel, es: seq<ListenerEvent>): ViewModel
    decreases |es|
  {
    if |es| == 0 then vm else Replay(Dispatch(vm, es[0]), es[1..])
  }

  /** One notification shows no city beyond those already listed and the one
      it adds. */
  lemma DispatchShowsOnlyAddedCities(vm: ViewModel, e: ListenerEvent)
    ensures forall c :: c in Dispatch(vm, e).cities ==> c in vm.cities || e == CityAdded(c)
  {
    if e.CityRemoved? {
      RemoveFirstContents(vm.cities, e.city);
      var r := Dispatch(vm, e).cities;
      forall c | c in r
        ensures c in vm.cities
      {
        assert multiset(r)[c] <= multiset(vm.cities)[c];
      }
    }
  }

  /** Every city the list shows was listed at the start or reported by an
      `onCityAdded` notification: removals and updates never invent cities. */
  lemma {:induction false} ReplayShowsOnlyAddedCities(vm: ViewModel, es: seq<ListenerEvent>)
    ensures forall c :: c in Replay(vm, es).cities ==> c in vm.cities || CityAdded(c) in es
    decreases |es|
  {
    if |es| > 0 {
      DispatchShowsOnlyAddedCities(vm, es[0]);
      ReplayShowsOnlyAddedCities(Dispatch(vm, es[0]), es[1..]);
      assert forall e :: e in es[1..] ==> e in es;
    }
  }

  /** Which classes the factory accepts: those `MainViewModel` is assignable
      to among view-model classes (its superclass `ViewModel` and itself), or
      any other view-model class. */
  datatype ViewModelClass = ViewModelBase | MainViewModelClass | OtherViewModel(name: string)

  datatype FactoryError = IllegalArgument(message: string)

  /** `MainViewModelFactory.create`: a fresh view model when the requested
      class is assignable from `MainViewModel`, otherwise the exception. */
  function Create(modelClass: ViewModelClass): (r: Result<ViewModel, FactoryError>)
    ensures r.Success? <==> !modelClass.OtherViewModel?
    ensures r.Success? ==> r.value.cities == [] && r.value.user.None?
    ensures r.Failure? ==> r.error == IllegalArgument("Unknown ViewModel class")
  {
    if modelClass.ViewModelBase? || modelClass.MainViewModelClass? then Success(Initial())
    else Failure(IllegalArgument("Unknown ViewModel class"))
  }
}
