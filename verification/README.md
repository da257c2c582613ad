# WeatherApp city synchronisation, in Dafny

A model of the decision logic of the WeatherApp Android client: cities are
tracked by a remote store (Firebase), mirrored into a local Room database, and
shown by a Compose UI. The model covers:

- **Repository** (`repository.dfy`): the collect loop that reconciles each
  emission of the remote city list against the last-known mirror `cityMap`.
  New names are inserted into the local store, known names are updated with
  the incoming record, and vanished names are deleted with their previously
  stored record. Then `cityMap` becomes the emission keyed by name, with
  `associateBy` semantics. One emission is the pure function `Step`. The local
  store is a `map<string, City>` to which the writes are applied. The loop is
  a fold over the sequence of emissions. `add`/`remove`/`update` only forward
  the city to the remote store.
- **MainViewModel** (`main_view_model.dfy`): the city list driven by the
  database listener. `onCityAdded` appends, `onCityRemoved` removes the first
  equal city, and `onCityUpdated` and `onUserSignOut` do nothing. The
  geocoding-guarded `add` overloads, `remove`, and the factory's `create` are
  also modelled.
- **MainActivity** (`main_activity.dfy`): `getRouteName`, the add-city
  dialog's not-blank guard, the intent listener's lookup by name, and the
  add-button visibility.
- **RegisterActivity / LoginActivity** (`register_page.dfy`,
  `login_page.dfy`): the form records, their button-enable predicates, and the
  login form's "Limpar" reset.
- `cities.dfy` holds the `City` record and the name-keyed view of a city
  list. `wrappers.dfy` holds `Option` and `Result`.

Callbacks, coroutines and I/O become values. A step returns the list of local
writes it issues. A view-model operation returns the database calls it makes.
A geocoding result is an `Option` parameter.

`onCityUpdated` (MainViewModel.kt:50-52) is an empty TODO, and `_cities`
(MainViewModel.kt:18) is a plain list with no per-field merging of weather
data. The model has neither a merge nor a refresh scheduler, because the
source has neither.

## Model

Source paths are relative to the repository root.

| member | source | states |
|---|---|---|
| Repository.Put | app/src/main/java/com/ifpe/weatherapp/repo/Repository.kt:41 | one `put` never shrinks the mirror and adds at most one entry |
| Repository.PutUpdatesView | app/src/main/java/com/ifpe/weatherapp/repo/Repository.kt:41 | putting a city into a name-unique mirror keeps names unique, and the map view gains exactly the binding name -> city |
| Repository.PutKeepsOrder | app/src/main/java/com/ifpe/weatherapp/repo/Repository.kt:41 | LinkedHashMap order: a new name is appended at the end; a known name keeps every entry's position |
| Repository.AssociateBy | app/src/main/java/com/ifpe/weatherapp/repo/Repository.kt:41 | the mirror built from a list has at most one entry per city of the list, and at least one when the list is non-empty |
| Repository.AssociateByKeepsLast | app/src/main/java/com/ifpe/weatherapp/repo/Repository.kt:41 | `associateBy { it.name }` gives one entry per name of the list, and each name maps to the last city of the list carrying it |
| Repository.AssociateByUnique | app/src/main/java/com/ifpe/weatherapp/repo/Repository.kt:41 | for a list with distinct names, the new `cityMap` binds exactly the list's names, each to its own city |
| Repository.Select | app/src/main/java/com/ifpe/weatherapp/repo/Repository.kt:33-35 | the name filters keep exactly the cities whose name is (or is not) in the given key set |
| Repository.SelectCounts | app/src/main/java/com/ifpe/weatherapp/repo/Repository.kt:33-35 | `filter` keeps every copy of a kept city and no copy of a dropped one |
| Repository.SelectAppend | app/src/main/java/com/ifpe/weatherapp/repo/Repository.kt:33-35 | `filter` keeps the order: filtering a concatenation concatenates the filtered parts |
| Repository.SelectNames | app/src/main/java/com/ifpe/weatherapp/repo/Repository.kt:33-35 | the names kept by a filter are the list's names inside (or outside) the key set |
| Repository.Step | app/src/main/java/com/ifpe/weatherapp/repo/Repository.kt:33-41 | a step issues one write (insert or update) per incoming city plus one delete per vanished mirror entry |
| Repository.StepWritesByName | app/src/main/java/com/ifpe/weatherapp/repo/Repository.kt:33-39 | an insert of c iff c is incoming with a new name; an update of c iff c is incoming with a known name; a delete of c iff c is the stored record of a vanished name |
| Repository.StepWritesInOrder | app/src/main/java/com/ifpe/weatherapp/repo/Repository.kt:37-39 | all inserts come before all updates, which come before all deletes |
| Repository.StepPartitionsNames | app/src/main/java/com/ifpe/weatherapp/repo/Repository.kt:33-35 | inserted and updated names are disjoint and together are the emission's names; deleted names are the mirror's names minus the emission's |
| Repository.StepOneWritePerName | app/src/main/java/com/ifpe/weatherapp/repo/Repository.kt:33-39 | with distinct names in mirror and emission, no two writes of a step concern the same name |
| Repository.Apply | app/src/main/java/com/ifpe/weatherapp/repo/Repository.kt:37-39 | a local write leaves every row of another name as it was |
| Repository.ApplyAll | app/src/main/java/com/ifpe/weatherapp/repo/Repository.kt:37-39 | a sequence of writes leaves every row whose name no write mentions as it was |
| Repository.ApplyInserts | app/src/main/java/com/ifpe/weatherapp/repo/Repository.kt:37 | inserting distinct-named cities adds each city under its name |
| Repository.ApplyUpdates | app/src/main/java/com/ifpe/weatherapp/repo/Repository.kt:38 | updating stored names overwrites each record with the incoming city |
| Repository.ApplyDeletes | app/src/main/java/com/ifpe/weatherapp/repo/Repository.kt:39 | deleting removes exactly the deleted cities' names from the store |
| Repository.StepWritesApplied | app/src/main/java/com/ifpe/weatherapp/repo/Repository.kt:37-39 | applying a step's writes to an in-sync store is the three phases applied in turn |
| Repository.Process | app/src/main/java/com/ifpe/weatherapp/repo/Repository.kt:29-42 | after one pass of the loop, `cityMap` has unique names and exactly the emission's names |
| Repository.ProcessKeepsInSync | app/src/main/java/com/ifpe/weatherapp/repo/Repository.kt:29-42 | one emission with distinct names keeps store and `cityMap` in sync, and the store then holds exactly the emission: its keys are the names and each value is the incoming record |
| Repository.Collect | app/src/main/java/com/ifpe/weatherapp/repo/Repository.kt:28-43 | no emission leaves the state as it was; otherwise `cityMap` holds exactly the names of the latest emission |
| Repository.CollectKeepsInSync | app/src/main/java/com/ifpe/weatherapp/repo/Repository.kt:28-43 | any sequence of such emissions keeps the store in sync, and the store holds the latest emission |
| Repository.MirrorFollowsRemote | app/src/main/java/com/ifpe/weatherapp/repo/Repository.kt:20-43 | starting from an empty `cityMap` and an empty local store, after every emission the store holds the latest remote city list |
| Repository.StepTouchesKnownNames | app/src/main/java/com/ifpe/weatherapp/repo/Repository.kt:33-39 | every name a step writes to is a name of `cityMap` or of the emission |
| Repository.StaleRowsSurvive | app/src/main/java/com/ifpe/weatherapp/repo/Repository.kt:33-39 | a stored row whose name neither `cityMap` nor the emission carries survives the step unchanged |
| Repository.RestepIsAllUpdates | app/src/main/java/com/ifpe/weatherapp/repo/Repository.kt:33-39 | against the mirror of the same list, a step's writes are exactly one update per city, in list order |
| Repository.ReplayIsQuiet | app/src/main/java/com/ifpe/weatherapp/repo/Repository.kt:33-41 | replaying an emission issues no insert or delete, one update per city, and leaves `cityMap` and the store unchanged |
| Repository.ForwardAdd | app/src/main/java/com/ifpe/weatherapp/repo/Repository.kt:46-48 | `add` launches a remote add of the unchanged city and leaves mirror and store as they were |
| Repository.ForwardRemove | app/src/main/java/com/ifpe/weatherapp/repo/Repository.kt:50-52 | `remove` launches a remote remove of the unchanged city and leaves mirror and store as they were |
| Repository.ForwardUpdate | app/src/main/java/com/ifpe/weatherapp/repo/Repository.kt:54-56 | `update` launches a remote update of the unchanged city and leaves mirror and store as they were |
| Repository.MutationsOnlyForward | app/src/main/java/com/ifpe/weatherapp/repo/Repository.kt:46-56 | `add`/`remove`/`update` launch the matching remote call with the unchanged city and touch neither `cityMap` nor the store |
| Repository.SetDifferenceExample | app/src/main/java/com/ifpe/weatherapp/repo/Repository.kt:33-39 | mirror {A,B,C} and emission [B',C',D] give exactly: insert D, update B', update C', delete the stored A |
| MainViewModel.OnCityAdded | app/src/main/java/com/ifpe/weatherapp/model/MainViewModel.kt:46-48 | `onCityAdded` appends the city at the end and leaves earlier cities and the user unchanged |
| MainViewModel.OnCityRemoved | app/src/main/java/com/ifpe/weatherapp/model/MainViewModel.kt:54-56 | `onCityRemoved` removes the first equal city, keeps the user, and changes nothing when the city is not listed |
| MainViewModel.RemoveFirst | app/src/main/java/com/ifpe/weatherapp/model/MainViewModel.kt:55 | `MutableList.remove` leaves a list without the element unchanged and otherwise shortens it by one |
| MainViewModel.RemoveFirstAt | app/src/main/java/com/ifpe/weatherapp/model/MainViewModel.kt:55 | the element removed is the first equal one; the others keep their order |
| MainViewModel.RemoveFirstContents | app/src/main/java/com/ifpe/weatherapp/model/MainViewModel.kt:55 | the list's contents lose exactly one copy of the city, or nothing when it is absent |
| MainViewModel.OnCityUpdated | app/src/main/java/com/ifpe/weatherapp/model/MainViewModel.kt:50-52 | `onCityUpdated` changes neither the list nor the user |
| MainViewModel.OnUserLoaded | app/src/main/java/com/ifpe/weatherapp/model/MainViewModel.kt:38-40 | `onUserLoaded` sets the user and keeps the list |
| MainViewModel.OnUserSignOut | app/src/main/java/com/ifpe/weatherapp/model/MainViewModel.kt:42-44 | `onUserSignOut` leaves the user (and the list) as they were |
| MainViewModel.AddThenRemoveRestores | app/src/main/java/com/ifpe/weatherapp/model/MainViewModel.kt:46-56 | an added-then-removed city that was not listed before leaves the view model as it was |
| MainViewModel.Dispatch | app/src/main/java/com/ifpe/weatherapp/model/MainViewModel.kt:38-56 | only `onUserLoaded` changes the user, to the loaded one; only `onCityAdded` and `onCityRemoved` change the list |
| MainViewModel.ReplayShowsOnlyAddedCities | app/src/main/java/com/ifpe/weatherapp/model/MainViewModel.kt:38-56 | after any sequence of listener callbacks, every listed city was listed before or reported by `onCityAdded` |
| MainViewModel.Remove | app/src/main/java/com/ifpe/weatherapp/model/MainViewModel.kt:30-32 | `remove` issues one database remove and leaves the list unchanged |
| MainViewModel.AddNamed | app/src/main/java/com/ifpe/weatherapp/model/MainViewModel.kt:34-36 | `add(name, location?)` issues one database add of a city with that name and location |
| MainViewModel.AddByName | app/src/main/java/com/ifpe/weatherapp/model/MainViewModel.kt:58-64 | `add(name)` issues a database add iff both lat and lng are non-null, of a city named `name` at `LatLng(lat, lng)`; otherwise no call |
| MainViewModel.AddByLocation | app/src/main/java/com/ifpe/weatherapp/model/MainViewModel.kt:65-71 | `add(location)` issues a database add iff the reverse-geocoded name is non-null, of a city with that name at the given location |
| MainViewModel.Create | app/src/main/java/com/ifpe/weatherapp/model/MainViewModel.kt:76-81 | the factory yields a fresh empty view model iff the class is assignable from `MainViewModel`, else `IllegalArgumentException("Unknown ViewModel class")` |
| MainActivity.GetRouteName | app/src/main/java/com/ifpe/weatherapp/MainActivity.kt:170-177 | the three screens get a name; any other route value yields `IllegalArgumentException("Rota desconhecida: …")` |
| MainActivity.RouteNames | app/src/main/java/com/ifpe/weatherapp/MainActivity.kt:172-174 | Home, List and Map are named "Route.Home", "Route.List" and "Route.Map" |
| MainActivity.RouteNamesInjective | app/src/main/java/com/ifpe/weatherapp/MainActivity.kt:170-174 | two routes with the same name are the same route |
| MainActivity.ConfirmDialog | app/src/main/java/com/ifpe/weatherapp/MainActivity.kt:157-162 | the dialog calls `add` iff the text has a non-whitespace character, with the text untrimmed, and closes in both cases |
| MainActivity.DialogExamples | app/src/main/java/com/ifpe/weatherapp/MainActivity.kt:158 | empty and whitespace-only names are rejected; " Recife " is passed on as typed |
| MainActivity.FirstNamed | app/src/main/java/com/ifpe/weatherapp/MainActivity.kt:85 | the index found has the name, and no earlier city has it |
| MainActivity.FindByName | app/src/main/java/com/ifpe/weatherapp/MainActivity.kt:85 | `find` yields nothing iff no city has the name, and otherwise the first city that has it |
| MainActivity.OnIntent | app/src/main/java/com/ifpe/weatherapp/MainActivity.kt:82-91 | a matching "city" extra selects the first matching city and switches to Home; no extra or no match changes nothing; the list never changes |
| MainActivity.ShowAddButton | app/src/main/java/com/ifpe/weatherapp/MainActivity.kt:72 | the button shows exactly when the current route is the string "Route.List" |
| MainActivity.AddButtonOnlyOnList | app/src/main/java/com/ifpe/weatherapp/MainActivity.kt:72 | the add button shows iff the current route is List's name; with no route it is hidden |
| RegisterPage.Edit | app/src/main/java/com/ifpe/weatherapp/RegisterActivity.kt:74-102 | typing into a field sets that field and leaves the other three unchanged |
| RegisterPage.ConfirmEnabled | app/src/main/java/com/ifpe/weatherapp/RegisterActivity.kt:117 | "Confirmar Cadastro" is enabled iff every field is non-empty and the passwords are equal |
| RegisterPage.EmptyFieldDisables | app/src/main/java/com/ifpe/weatherapp/RegisterActivity.kt:117 | any empty field disables the button, whatever the others hold |
| RegisterPage.MismatchDisables | app/src/main/java/com/ifpe/weatherapp/RegisterActivity.kt:117 | different passwords disable the button |
| RegisterPage.InitialDisabled | app/src/main/java/com/ifpe/weatherapp/RegisterActivity.kt:57-60 | the empty initial form has the button disabled |
| RegisterPage.BlanksCountAsFilled | app/src/main/java/com/ifpe/weatherapp/RegisterActivity.kt:117 | there is no trimming and no e-mail check: blank values and a non-address count as filled |
| LoginPage.Edit | app/src/main/java/com/ifpe/weatherapp/LoginActivity.kt:72-85 | typing into one field sets it and leaves the other unchanged |
| LoginPage.LoginEnabled | app/src/main/java/com/ifpe/weatherapp/LoginActivity.kt:99 | Login is enabled iff neither field is empty |
| LoginPage.InitialDisabled | app/src/main/java/com/ifpe/weatherapp/LoginActivity.kt:57-58 | the empty initial form has Login disabled |
| LoginPage.Clear | app/src/main/java/com/ifpe/weatherapp/LoginActivity.kt:107 | "Limpar" leaves every field empty |
| LoginPage.ClearResets | app/src/main/java/com/ifpe/weatherapp/LoginActivity.kt:107 | "Limpar" returns the form to its initial state, disables Login, and is idempotent |

## Left out

- Repository.MirrorFollowsRemote: assumes the local store starts empty, as
  `Start` does. Only `cityMap` starts empty in the source (Repository.kt:20).
  The store is a per-user database named `weather_db_<uid>`
  (MainActivity.kt:60-61) that keeps its rows across runs. Over such a store
  the step never deletes a row whose name neither `cityMap` nor the emission
  carries (`StaleRowsSurvive`), and the first emission's inserts can meet
  rows that already exist. How the database resolves such an insert is not
  modelled.
- The local database (Room DAO) is not part of this model. Its writes are
  modelled as: insert puts the record under its name, update overwrites only
  an existing name, and delete removes the name. The results about the store
  assume distinct names within an emission, so they do not depend on how an
  insert resolves a conflict.
- The `toCity`/`toFBCity`/`toLocalCity`/`toUser` conversions are not part of
  this model. They are taken as the identity.
- `City.kt` is not part of this model. The `City` record's fields (name,
  optional weather, optional location) come from the constructor calls in the
  source. A city built from a name and a location is assumed to have no
  weather.
- MainViewModel.OnCityRemoved: assumes `City` is a data class. `remove` at
  MainViewModel.kt:55 compares with `City.equals`, and the model compares
  structurally over name, weather and location. If `City` compared by
  identity, removing a freshly converted city would remove nothing.
- MainViewModel.AddByName: the added location is the raw pair
  `LatLng(lat, lng)`. The platform's `LatLng` constructor clamps the latitude
  and wraps the longitude (MainViewModel.kt:61). That normalisation is not
  modelled, so the contract matches the source only for coordinates already
  in range.
- Repository's read paths `cities` and `user` (Repository.kt:22-25) only map
  the database streams through the conversions, so they are left out.
- Concurrency: the `ioScope` launches (Repository.kt:19,28,46-56) are not
  modelled. Emissions are processed one at a time, in order, as a fold.
  Remote and local calls are returned as values.
- Remote-store failures are left out: `add`/`remove`/`update` are
  fire-and-forget.
- `WeatherService` is network code and is not part of this model. The
  geocoding answers are `Option` parameters of `AddByName` and
  `AddByLocation`. MainViewModel.kt:59 passes a callback that the service's
  signature does not take; the model follows the callback's meaning.
- The placeholder `getCities()` list (MainViewModel.kt:12-14) is unused, so
  it is left out.
- The listener registration in the view model's `init` (MainViewModel.kt:26-28)
  is left out. `Dispatch` stands for the callbacks it enables.
- MainActivity constructs the factory with three arguments (MainActivity.kt:64),
  but the factory at MainViewModel.kt:74 takes two. MainActivity.kt:87-88 also
  assigns `viewModel.city` and `viewModel.page`, and MainViewModel.kt declares
  no `city` or `page`. `OnIntent` models these as fields of a `Screen` record.
- The intent listener (MainActivity.kt:82-91) is created, but MainActivity.kt
  never registers it. `OnIntent` models what it would do.
- Rendering is not modelled. This covers the title text (MainActivity.kt:103-104),
  the bottom bar, the permission request, navigation
  (MainActivity.kt:141-151, MainNavHost.kt), `Composables.kt`, `MapPage.kt`,
  toasts, and activity start/finish on the form buttons.
- `build.gradle.kts` is build configuration and is left out.
- `LatLng` holds doubles and is modelled as a pair of `real`s that is never
  computed with, so floating point plays no part.
- `Create` models `isAssignableFrom` over view-model classes only. With the
  bound `T : ViewModel`, the classes `MainViewModel` is assignable to are
  `ViewModel` and `MainViewModel`, and every other class is `OtherViewModel`.
- `IsWhitespace` follows the JVM's `Character.isWhitespace` or
  `Character.isSpaceChar`, as Kotlin's `Char.isWhitespace` does. Unassigned
  code points are not distinguished.
