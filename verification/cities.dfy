/** The records shared by the repository, the view model and the screens:
    cities, users and coordinates, plus facts about lists of cities keyed by name. */
module Cities {
  import opened Wrappers

  /** A map coordinate. The platform's `LatLng` holds two doubles; here it is an
      opaque pair of reals. */
  datatype LatLng = LatLng(latitude: real, longitude: real)

  /** A tracked city. Its identity key is `name`; `weather` is the display text
      and `location` the optional coordinate. */
  datatype City = City(name: string, weather: Option<string>, location: Option<LatLng>)

  /** The signed-in user as the view model holds it. */
  datatype User = User(name: string, email: string)

  /** `City(name = name, location = location)`: the weather text takes its default. */
  function NewCity(name: string, location: Option<LatLng>): (c: City)
    ensures c.name == name && c.location == location && c.weather.None?
  {
    City(name, None, location)
  }

  /** The set of names occurring in a list of cities (`cityList.map { it.name }`,
      read as a set). */
  function Names(s: seq<City>): set<string>
    decreases |s|
  {
    if |s| == 0 then {} else {s[0].name} + Names(s[1..])
  }

  /** A name occurs in a list exactly when some city of the list carries it. */
  lemma {:induction false} InNames(s: seq<City>, n: string)
    ensures n in Names(s) <==> exists c :: c in s && c.name == n
    decreases |s|
  {
    if |s| > 0 {
      InNames(s[1..], n);
      assert s == [s[0]] + s[1..];
      assert forall c :: c in s <==> c == s[0] || c in s[1..];
    }
  }

  /** The names of a concatenation are the names of its parts. */
  lemma {:induction false} NamesAppend(a: seq<City>, b: seq<City>)
    ensures Names(a + b) == Names(a) + Names(b)
    decreases |a|
  {
    if |a| > 0 {
      NamesAppend(a[1..], b);
      assert (a + b)[0] == a[0] && (a + b)[1..] == a[1..] + b;
    } else {
      assert a + b == b;
    }
  }

  /** No two entries of `s` share a name. */
  predicate UniqueNames(s: seq<City>)
  {
    forall i, j :: 0 <= i < j < |s| ==> s[i].name != s[j].name
  }

  /** `s[i]` is the last element of `s` that carries its name. */
  predicate LastWithName(s: seq<City>, i: int)
    requires 0 <= i < |s|
  {
    forall j :: i < j < |s| ==> s[j].name != s[i].name
  }

  /** The map `name -> city` that a list stands for; when names repeat, the
      earliest city wins (a mirror built by `put` never repeats a name). */
  function View(s: seq<City>): map<string, City>
    decreases |s|
  {
    if |s| == 0 then map[] else View(s[1..])[s[0].name := s[0]]
  }

  /** The view of a list binds exactly the list's names, and with unique
      names each city is found under its own name. */
  lemma {:induction false} ViewBindsEachCity(s: seq<City>)
    ensures View(s).Keys == Names(s)
    ensures UniqueNames(s) ==> forall c :: c in s ==> c.name in View(s) && View(s)[c.name] == c
    decreases |s|
  {
    if |s| > 0 {
      ViewBindsEachCity(s[1..]);
      UniqueNamesTail(s);
      assert forall c :: c in s ==> c == s[0] || c in s[1..];
    }
  }

  /** A list with a city in front has unique names exactly when the rest does
      and does not already use that city's name. */
  lemma UniqueCons(h: City, t: seq<City>)
    ensures UniqueNames([h] + t) <==> UniqueNames(t) && h.name !in Names(t)
  {
    var s := [h] + t;
    assert s[1..] == t;
    if UniqueNames(t) && h.name !in Names(t) {
      InNames(t, h.name);
      forall i, j | 0 <= i < j < |s|
        ensures s[i].name != s[j].name
      {
        if i == 0 {
          assert s[j] in t;
        }
      }
    }
    if UniqueNames(s) {
      forall i, j | 0 <= i < j < |t|
        ensures t[i].name != t[j].name
      {
        assert t[i] == s[i + 1] && t[j] == s[j + 1];
      }
      forall c | c in t
        ensures c.name != h.name
      {
        var k :| 0 <= k < |t| && t[k] == c;
        assert s[0] == h && s[k + 1] == c;
      }
      InNames(t, h.name);
    }
  }

  /** A concatenation has unique names exactly when both parts do and no name
      is shared between them. */
  lemma {:induction false} UniqueAppend(a: seq<City>, b: seq<City>)
    ensures UniqueNames(a + b) <==> UniqueNames(a) && UniqueNames(b) && Names(a) !! Names(b)
    decreases |a|
  {
    if |a| == 0 {
      assert a + b == b;
    } else {
      UniqueAppend(a[1..], b);
      assert a + b == [a[0]] + (a[1..] + b);
      assert a == [a[0]] + a[1..];
      UniqueCons(a[0], a[1..] + b);
      UniqueCons(a[0], a[1..]);
      NamesAppend(a[1..], b);
    }
  }

  /** Removing the first element keeps names unique. */
  lemma UniqueNamesTail(s: seq<City>)
    requires |s| > 0
    ensures UniqueNames(s) ==> UniqueNames(s[1..]) && s[0].name !in Names(s[1..])
  {
    assert s == [s[0]] + s[1..];
    UniqueCons(s[0], s[1..]);
  }
}
