/** The decisions the main screen makes (MainActivity.kt): the string name of a
    route, whether the add-city dialog adds anything, which city an incoming
    "city" intent selects, and when the add button is shown. Rendering and
    navigation wiring are not modelled. */
module MainActivity {
  import opened Wrappers
  import opened Cities

  /** The screens. The source's route type has the three objects below;
      `Other` stands for any further value that the exhaustive `when` sends to
      its `else` branch. */
  datatype Route = Home | List | Map | Other(description: string)

  datatype RouteError = IllegalArgument(message: string)

  /** `getRouteName`: the navigation name of a route, or the exception thrown
      for an unknown one. */
  function GetRouteName(route: Route): (r: Result<string, RouteError>)
    ensures r.Success? <==> !route.Other?
    ensures route.Other? ==> r == Failure(IllegalArgument("Rota desconhecida: " + route.description))
  {
    match route
    case Home => Success("Route.Home")
    case List => Success("Route.List")
    case Map => Success("Route.Map")
    case Other(d) => Failure(IllegalArgument("Rota desconhecida: " + d))
  }

  /** The three screens are named "Route.Home", "Route.List" and "Route.Map". */
  lemma RouteNames()
    ensures GetRouteName(Home) == Success("Route.Home")
    ensures GetRouteName(List) == Success("Route.List")
    ensures GetRouteName(Map) == Success("Route.Map")
  {
  }

  /** Distinct screens get distinct names, so a name identifies its screen. */
  lemma RouteNamesInjective(a: Route, b: Route)
    requires GetRouteName(a).Success? && GetRouteName(a) == GetRouteName(b)
    ensures a == b
  {
  }

  /** Kotlin's `Char.isWhitespace` on the JVM: Java's `isWhitespace` or
      `isSpaceChar`, so the controls TAB to CR and FS to US, the space
      separators (no-break ones included) and the line and paragraph separators. */
  predicate IsWhitespace(ch: char)
  {
    var k := ch as int;
    (9 <= k <= 13) || (28 <= k <= 32) || k == 0xA0 || k == 0x1680
    || (0x2000 <= k <= 0x200A) || k == 0x2028 || k == 0x2029 || k == 0x202F
    || k == 0x205F || k == 0x3000
  }

  /** `isBlank`: empty or made of whitespace only. */
  predicate IsBlank(s: string)
  {
    forall i :: 0 <= i < |s| ==> IsWhitespace(s[i])
  }

  /** What confirming the add-city dialog does: the name handed to
      `viewModel.add`, if any, and whether the dialog stays open. */
  datatype DialogOutcome = DialogOutcome(added: Option<string>, showDialog: bool)

  /** `CityDialog.onConfirm`: the text goes to `add` only when it is not
      blank, untrimmed; the dialog closes either way. */
  function ConfirmDialog(text: string): (r: DialogOutcome)
    ensures !r.showDialog
    ensures r.added.Some? <==> exists i :: 0 <= i < |text| && !IsWhitespace(text[i])
    ensures r.added.Some? ==> r.added.value == text
  {
    DialogOutcome(if IsBlank(text) then None else Some(text), false)
  }

  /** Empty and whitespace-only names are rejected; surrounding spaces are
      passed on as typed. */
  lemma DialogExamples()
    ensures ConfirmDialog("").added.None?
    ensures ConfirmDialog(" \t\n").added.None?
    ensures ConfirmDialog(" Recife ").added == Some(" Recife ")
  {
    assert !IsWhitespace(" Recife "[1]);
  }

  /** Position of the first city named `name`, or `|cities|` when none is. */
  function FirstNamed(cities: seq<City>, name: string): (i: nat)
    ensures i <= |cities|
    ensures forall j :: 0 <= j < i ==> cities[j].name != name
    ensures i < |cities| ==> cities[i].name == name
    decreases |cities|
  {
    if |cities| == 0 then 0
    else if cities[0].name == name then 0
    else 1 + FirstNamed(cities[1..], name)
  }

  /** `cities.find { it.name == name }`. */
  function FindByName(cities: seq<City>, name: string): (r: Option<City>)
    ensures r.None? <==> forall c :: c in cities ==> c.name != name
    ensures r.Some? ==> r.value == cities[FirstNamed(cities, name)]
  {
    var i := FirstNamed(cities, name);
    if i < |cities| then Some(cities[i]) else None
  }

  /** What the intent listener touches: the view model's list, selected city
      and current page. */
  datatype Screen = Screen(cities: seq<City>, city: Option<City>, page: Route)

  /** The intent listener: a "city" extra naming a listed city selects the
      first city of that name and switches to Home; otherwise nothing changes. */
  function OnIntent(scr: Screen, extra: Option<string>): (r: Screen)
    ensures r.cities == scr.cities
    ensures extra.None? ==> r == scr
    ensures extra.Some? && (forall c :: c in scr.cities ==> c.name != extra.value) ==> r == scr
    ensures extra.Some? && FirstNamed(scr.cities, extra.value) < |scr.cities| ==>
      r.city == Some(scr.cities[FirstNamed(scr.cities, extra.value)]) && r.page == Home
  {
    match extra
    case None => scr
    case Some(name) =>
      match FindByName(scr.cities, name)
      case Some(c) => scr.(city := Some(c), page := Home)
      case None => scr
  }

  /** `showButton`: the current back-stack route, when there is one, equals
      the name of the List screen. */
  function ShowAddButton(currentRoute: Option<string>): (shown: bool)
    ensures shown <==> currentRoute == Some("Route.List")
  {
    currentRoute == Some(GetRouteName(List).value)
  }

  /** The add button shows on the List screen and on no other: for every route
      with a name, it is shown exactly when that route is List; with no
      current route it is hidden. */
  lemma AddButtonOnlyOnList(route: Route)
    ensures GetRouteName(route).Success? ==>
      (ShowAddButton(Some(GetRouteName(route).value)) <==> route == List)
    ensures !ShowAddButton(None)
  {
  }
}
