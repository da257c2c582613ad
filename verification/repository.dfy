/** The repository's reconciliation of the remote city list into the local store
    (repo/Repository.kt). Every emission of the remote city list is one `Step`:
    cities with new names are inserted into the local store, cities with known
    names overwrite their local record, cities that vanished are deleted, and the
    last-known mirror `cityMap` is replaced by the emission keyed by name.
    Coroutines are gone: the collect loop is a fold over the sequence of
    emissions, and local writes and remote calls are returned as values. */
module Repository {
  import opened Wrappers
  import opened Cities

  /** The last-known mirror `cityMap`, a `LinkedHashMap` from name to city,
      represented by its entries in iteration order. Each entry's key is the
      name of its city, so an entry is just the city. */
  type CityMap = seq<City>

  /** `put(c.name, c)` on the mirror: a present name keeps its position and
      takes the new value; an absent name is appended. */
  function Put(m: CityMap, c: City): (r: CityMap)
    ensures |m| <= |r| <= |m| + 1
    decreases |m|
  {
    if |m| == 0 then [c]
    else if m[0].name == c.name then [c] + m[1..]
    else [m[0]] + Put(m[1..], c)
  }

  /** Putting into a mirror with unique names keeps them unique, and its map
      view gains exactly the binding `c.name -> c`. */
  lemma {:induction false} PutUpdatesView(m: CityMap, c: City)
    requires UniqueNames(m)
    ensures UniqueNames(Put(m, c))
    ensures View(Put(m, c)) == View(m)[c.name := c]
    decreases |m|
  {
    var r := Put(m, c);
    if |m| == 0 {
    } else if m[0].name == c.name {
      UniqueNamesTail(m);
      UniqueCons(c, m[1..]);
      assert r[1..] == m[1..];
    } else {
      var t := Put(m[1..], c);
      UniqueNamesTail(m);
      PutUpdatesView(m[1..], c);
      ViewBindsEachCity(t);
      ViewBindsEachCity(m[1..]);
      UniqueCons(m[0], t);
      assert r[1..] == t;
      assert View(r) == View(m[1..])[c.name := c][m[0].name := m[0]];
    }
  }

  /** `put` keeps the iteration order: a new name goes to the end, a known
      name keeps its place. */
  lemma {:induction false} PutKeepsOrder(m: CityMap, c: City)
    ensures c.name !in Names(m) ==> Put(m, c) == m + [c]
    ensures c.name in Names(m) ==> |Put(m, c)| == |m| && forall i :: 0 <= i < |m| ==> Put(m, c)[i].name == m[i].name
    decreases |m|
  {
    if |m| > 0 && m[0].name != c.name {
      PutKeepsOrder(m[1..], c);
      assert m == [m[0]] + m[1..];
      if c.name in Names(m) {
        forall i | 0 < i < |m|
          ensures Put(m, c)[i].name == m[i].name
        {
          assert Put(m, c)[i] == Put(m[1..], c)[i - 1];
        }
      }
    }
  }

  /** `cityList.associateBy { it.name }`: puts every city in list order, so a
      repeated name ends up holding its last city. */
  function AssociateBy(s: seq<City>): (r: CityMap)
    ensures |r| <= |s|
    ensures |s| > 0 ==> |r| > 0
    decreases |s|
  {
    if |s| == 0 then [] else Put(AssociateBy(s[..|s| - 1]), s[|s| - 1])
  }

  /** One more city put into a mirror with unique names: names stay unique,
      the city's name joins them, and the view gains the city's binding. */
  lemma PutOneMore(m: CityMap, c: City)
    requires UniqueNames(m)
    ensures UniqueNames(Put(m, c))
    ensures Names(Put(m, c)) == Names(m) + {c.name}
    ensures View(Put(m, c)) == View(m)[c.name := c]
  {
    PutUpdatesView(m, c);
    ViewBindsEachCity(m);
    ViewBindsEachCity(Put(m, c));
  }

  /** The mirror built from a list has unique names, and they are the list's. */
  lemma {:induction false} AssociateByNames(s: seq<City>)
    ensures UniqueNames(AssociateBy(s))
    ensures Names(AssociateBy(s)) == Names(s)
    decreases |s|
  {
    if |s| > 0 {
      var init := s[..|s| - 1];
      var last := s[|s| - 1];
      AssociateByNames(init);
      PutOneMore(AssociateBy(init), last);
      assert s == init + [last];
      NamesAppend(init, [last]);
    }
  }

  /** A city that is the last of its name in `s` and is not `s`'s final
      element is also the last of its name in the prefix, and its name differs
      from the final element's. */
  lemma LastWithNameInInit(s: seq<City>, i: int)
    requires 0 <= i < |s| - 1 && LastWithName(s, i)
    ensures LastWithName(s[..|s| - 1], i) && s[i].name != s[|s| - 1].name
  {
  }

  /** In the mirror built from a list, each name maps to the last city of the
      list that carries it. */
  lemma {:induction false} AssociateByLastWins(s: seq<City>)
    ensures forall i :: 0 <= i < |s| && LastWithName(s, i) ==> s[i].name in View(AssociateBy(s)) && View(AssociateBy(s))[s[i].name] == s[i]
    decreases |s|
  {
    if |s| > 0 {
      var init := s[..|s| - 1];
      var last := s[|s| - 1];
      var m := AssociateBy(init);
      AssociateByNames(init);
      AssociateByLastWins(init);
      assert AssociateBy(s) == Put(m, last);
      PutUpdatesView(m, last);
      var v := View(AssociateBy(s));
      assert v == View(m)[last.name := last];
      forall i | 0 <= i < |s| && LastWithName(s, i)
        ensures s[i].name in v && v[s[i].name] == s[i]
      {
        if i < |s| - 1 {
          LastWithNameInInit(s, i);
        }
      }
    }
  }

  /** The mirror built from a list has one entry per name of the list, and the
      entry of each name is the last city of the list that carries it. */
  lemma AssociateByKeepsLast(s: seq<City>)
    ensures UniqueNames(AssociateBy(s))
    ensures Names(AssociateBy(s)) == Names(s)
    ensures forall i :: 0 <= i < |s| && LastWithName(s, i) ==> s[i].name in View(AssociateBy(s)) && View(AssociateBy(s))[s[i].name] == s[i]
  {
    AssociateByNames(s);
    AssociateByLastWins(s);
  }

  /** With unique names every city of the list is its name's last one. */
  lemma AssociateByUnique(s: seq<City>)
    requires UniqueNames(s)
    ensures UniqueNames(AssociateBy(s))
    ensures View(AssociateBy(s)).Keys == Names(s)
    ensures forall c :: c in s ==> c.name in View(AssociateBy(s)) && View(AssociateBy(s))[c.name] == c
  {
    AssociateByKeepsLast(s);
    ViewBindsEachCity(AssociateBy(s));
    forall c | c in s
      ensures c.name in View(AssociateBy(s)) && View(AssociateBy(s))[c.name] == c
    {
      var i :| 0 <= i < |s| && s[i] == c;
      assert LastWithName(s, i);
    }
  }

  /** A local-store write, as issued to the local database. */
  datatype WriteKind = Insert | Update | Delete
  datatype LocalWrite = LocalWrite(kind: WriteKind, city: City)

  /** Position of a write kind in the emitted order: inserts, updates, deletes. */
  function Rank(k: WriteKind): nat
  {
    match k
    case Insert => 0
    case Update => 1
    case Delete => 2
  }

  /** The writes of one emission and the mirror that replaces `cityMap`. */
  datatype StepResult = StepResult(writes: seq<LocalWrite>, cityMap: CityMap)

  /** `filter { it.name in names }` when `inside` holds, and
      `filter { it.name !in names }` otherwise. */
  function Select(s: seq<City>, names: set<string>, inside: bool): (r: seq<City>)
    ensures forall c :: c in r <==> c in s && (c.name in names) == inside
    decreases |s|
  {
    if |s| == 0 then []
    else if (s[0].name in names) == inside then [s[0]] + Select(s[1..], names, inside)
    else Select(s[1..], names, inside)
  }

  /** Filtering keeps every copy of a kept city and drops every copy of the
      others. */
  lemma {:induction false} SelectCounts(s: seq<City>, names: set<string>, inside: bool)
    ensures forall c :: multiset(Select(s, names, inside))[c] == if (c.name in names) == inside then multiset(s)[c] else 0
    decreases |s|
  {
    if |s| > 0 {
      SelectCounts(s[1..], names, inside);
      assert s == [s[0]] + s[1..];
    }
  }

  /** Filtering keeps the order: filtering a concatenation filters each part
      and concatenates the results. */
  lemma {:induction false} SelectAppend(a: seq<City>, b: seq<City>, names: set<string>, inside: bool)
    ensures Select(a + b, names, inside) == Select(a, names, inside) + Select(b, names, inside)
    decreases |a|
  {
    if |a| > 0 {
      var ab := a + b;
      assert ab[0] == a[0] && ab[1..] == a[1..] + b;
      var rest := Select(a[1..], names, inside);
      SelectAppend(a[1..], b, names, inside);
      if (a[0].name in names) == inside {
        assert Select(ab, names, inside) == [a[0]] + (rest + Select(b, names, inside));
        assert Select(a, names, inside) == [a[0]] + rest;
      } else {
        assert Select(ab, names, inside) == rest + Select(b, names, inside);
        assert Select(a, names, inside) == rest;
      }
    } else {
      assert a + b == b;
    }
  }

  /** Filtering keeps names unique. */
  lemma {:induction false} SelectUnique(s: seq<City>, names: set<string>, inside: bool)
    requires UniqueNames(s)
    ensures UniqueNames(Select(s, names, inside))
    decreases |s|
  {
    if |s| > 0 {
      var t := Select(s[1..], names, inside);
      UniqueNamesTail(s);
      SelectUnique(s[1..], names, inside);
      InNames(t, s[0].name);
      InNames(s[1..], s[0].name);
      UniqueCons(s[0], t);
    }
  }

  /** Keeping every city gives back the list; keeping none gives the empty list. */
  lemma {:induction false} SelectAllOrNothing(s: seq<City>, names: set<string>, inside: bool)
    ensures (forall c :: c in s ==> (c.name in names) == inside) ==> Select(s, names, inside) == s
    ensures (forall c :: c in s ==> (c.name in names) != inside) ==> Select(s, names, inside) == []
    decreases |s|
  {
    if |s| > 0 {
      SelectAllOrNothing(s[1..], names, inside);
      assert s == [s[0]] + s[1..];
    }
  }

  /** The same write applied to each city in turn (`forEach { localDB.op(it) }`). */
  function Tagged(k: WriteKind, s: seq<City>): (ws: seq<LocalWrite>)
    ensures |ws| == |s|
    ensures forall i :: 0 <= i < |s| ==> ws[i] == LocalWrite(k, s[i])
  {
    seq(|s|, i requires 0 <= i < |s| => LocalWrite(k, s[i]))
  }

  /** A tagged list holds a write exactly when it has the list's kind and a
      city of the list. */
  lemma InTagged(k: WriteKind, s: seq<City>)
    ensures forall k', c :: LocalWrite(k', c) in Tagged(k, s) <==> k' == k && c in s
  {
    var ws := Tagged(k, s);
    forall k', c
      ensures LocalWrite(k', c) in ws <==> k' == k && c in s
    {
      if LocalWrite(k', c) in ws {
        var i :| 0 <= i < |ws| && ws[i] == LocalWrite(k', c);
        assert s[i] == c;
      }
      if k' == k && c in s {
        var i :| 0 <= i < |s| && s[i] == c;
        assert ws[i] == LocalWrite(k', c);
      }
    }
  }

  /** The two filters on the same key set split a list between them. */
  lemma {:induction false} SelectSplits(s: seq<City>, names: set<string>)
    ensures |Select(s, names, false)| + |Select(s, names, true)| == |s|
    decreases |s|
  {
    if |s| > 0 {
      SelectSplits(s[1..], names);
    }
  }

  /** The cities of the emission whose names are new. */
  function NewCities(cityMap: CityMap, cityList: seq<City>): seq<City>
  {
    Select(cityList, Names(cityMap), false)
  }

  /** The cities of the emission whose names the mirror already knows. */
  function KnownCities(cityMap: CityMap, cityList: seq<City>): seq<City>
  {
    Select(cityList, Names(cityMap), true)
  }

  /** The mirror's entries whose names the emission no longer carries. */
  function VanishedCities(cityMap: CityMap, cityList: seq<City>): seq<City>
  {
    Select(cityMap, Names(cityList), false)
  }

  /** One emission of the remote city list reconciled against `cityMap`:
      inserts for new names, then updates for known names, then deletes of the
      stored records whose names vanished; the mirror becomes the emission
      keyed by name. */
  function Step(cityMap: CityMap, cityList: seq<City>): (r: StepResult)
    ensures |r.writes| == |cityList| + |VanishedCities(cityMap, cityList)|
  {
    SelectSplits(cityList, Names(cityMap));
    StepResult(
      Tagged(Insert, NewCities(cityMap, cityList))
        + Tagged(Update, KnownCities(cityMap, cityList))
        + Tagged(Delete, VanishedCities(cityMap, cityList)),
      AssociateBy(cityList))
  }

  /** Which city each write carries: an insert for every incoming city whose
      name is new, an update with the incoming record for every incoming city
      whose name is known, and a delete of the previously stored record for
      every mirror entry whose name vanished; nothing else. */
  lemma StepWritesByName(cityMap: CityMap, cityList: seq<City>)
    ensures forall c :: LocalWrite(Insert, c) in Step(cityMap, cityList).writes <==> c in cityList && c.name !in Names(cityMap)
    ensures forall c :: LocalWrite(Update, c) in Step(cityMap, cityList).writes <==> c in cityList && c.name in Names(cityMap)
    ensures forall c :: LocalWrite(Delete, c) in Step(cityMap, cityList).writes <==> c in cityMap && c.name !in Names(cityList)
  {
    var ins := Tagged(Insert, NewCities(cityMap, cityList));
    var upd := Tagged(Update, KnownCities(cityMap, cityList));
    var del := Tagged(Delete, VanishedCities(cityMap, cityList));
    InTagged(Insert, NewCities(cityMap, cityList));
    InTagged(Update, KnownCities(cityMap, cityList));
    InTagged(Delete, VanishedCities(cityMap, cityList));
    assert Step(cityMap, cityList).writes == ins + upd + del;
    assert forall w :: w in ins + upd + del <==> w in ins || w in upd || w in del;
  }

  /** The writes come out as all inserts, then all updates, then all deletes. */
  lemma StepWritesInOrder(cityMap: CityMap, cityList: seq<City>)
    ensures forall i, j :: 0 <= i < j < |Step(cityMap, cityList).writes| ==>
      Rank(Step(cityMap, cityList).writes[i].kind) <= Rank(Step(cityMap, cityList).writes[j].kind)
  {
  }

  /** The names kept by a filter are the list's names on the chosen side of `names`. */
  lemma {:induction false} SelectNames(s: seq<City>, names: set<string>, inside: bool)
    ensures forall n :: n in Names(Select(s, names, inside)) <==> n in Names(s) && (n in names) == inside
    decreases |s|
  {
    if |s| > 0 {
      SelectNames(s[1..], names, inside);
    }
  }

  /** The set of names carried by the writes of one kind. */
  function WrittenNames(ws: seq<LocalWrite>, k: WriteKind): set<string>
  {
    set w | w in ws && w.kind == k :: w.city.name
  }

  /** The inserted and updated names split the emission's names between them,
      and the deleted names are exactly the known names the emission dropped. */
  lemma StepPartitionsNames(cityMap: CityMap, cityList: seq<City>)
    ensures WrittenNames(Step(cityMap, cityList).writes, Insert) + WrittenNames(Step(cityMap, cityList).writes, Update) == Names(cityList)
    ensures WrittenNames(Step(cityMap, cityList).writes, Insert) !! WrittenNames(Step(cityMap, cityList).writes, Update)
    ensures WrittenNames(Step(cityMap, cityList).writes, Delete) == Names(cityMap) - Names(cityList)
  {
    var ws := Step(cityMap, cityList).writes;
    StepWritesByName(cityMap, cityList);
    forall n
      ensures n in WrittenNames(ws, Insert) <==> n in Names(cityList) && n !in Names(cityMap)
      ensures n in WrittenNames(ws, Update) <==> n in Names(cityList) && n in Names(cityMap)
      ensures n in WrittenNames(ws, Delete) <==> n in Names(cityMap) && n !in Names(cityList)
    {
      InNames(cityList, n);
      InNames(cityMap, n);
      if n in Names(cityList) {
        var c :| c in cityList && c.name == n;
        assert LocalWrite(if n in Names(cityMap) then Update else Insert, c) in ws;
      }
      if n in Names(cityMap) && n !in Names(cityList) {
        var c :| c in cityMap && c.name == n;
        assert LocalWrite(Delete, c) in ws;
      }
    }
  }

  /** The cities a step writes, in write order. */
  lemma StepWriteCities(cityMap: CityMap, cityList: seq<City>)
    ensures var cs := NewCities(cityMap, cityList) + KnownCities(cityMap, cityList) + VanishedCities(cityMap, cityList);
      |Step(cityMap, cityList).writes| == |cs| &&
      forall i :: 0 <= i < |cs| ==> Step(cityMap, cityList).writes[i].city == cs[i]
  {
  }

  /** With unique names on both sides, the new, known and vanished cities
      together have unique names. */
  lemma StepCitiesUnique(cityMap: CityMap, cityList: seq<City>)
    requires UniqueNames(cityMap) && UniqueNames(cityList)
    ensures UniqueNames(NewCities(cityMap, cityList) + KnownCities(cityMap, cityList) + VanishedCities(cityMap, cityList))
  {
    var a := NewCities(cityMap, cityList);
    var b := KnownCities(cityMap, cityList);
    var d := VanishedCities(cityMap, cityList);
    SelectUnique(cityList, Names(cityMap), false);
    SelectUnique(cityList, Names(cityMap), true);
    SelectUnique(cityMap, Names(cityList), false);
    SelectNames(cityList, Names(cityMap), false);
    SelectNames(cityList, Names(cityMap), true);
    SelectNames(cityMap, Names(cityList), false);
    UniqueAppend(a, b);
    NamesAppend(a, b);
    UniqueAppend(a + b, d);
  }

  /** With unique names on both sides, no two writes of a step touch the same
      name: each name gets exactly one write. */
  lemma StepOneWritePerName(cityMap: CityMap, cityList: seq<City>)
    requires UniqueNames(cityMap) && UniqueNames(cityList)
    ensures forall i, j :: 0 <= i < j < |Step(cityMap, cityList).writes| ==>
      Step(cityMap, cityList).writes[i].city.name != Step(cityMap, cityList).writes[j].city.name
  {
    StepWriteCities(cityMap, cityList);
    StepCitiesUnique(cityMap, cityList);
  }

  /** The local store: the local database's city table, keyed by name. */
  type LocalStore = map<string, City>

  /** Every row of `before` whose name is not in `names` is still in `after`,
      with the same record. */
  predicate KeepsRowsOutside(before: LocalStore, after: LocalStore, names: set<string>)
  {
    forall n :: n in before && n !in names ==> n in after && after[n] == before[n]
  }

  /** One local write. An insert stores the city under its name; an update
      overwrites the row of that name when there is one; a delete removes the
      row of that name. */
  function Apply(store: LocalStore, w: LocalWrite): (r: LocalStore)
    ensures KeepsRowsOutside(store, r, {w.city.name})
  {
    match w.kind
    case Insert => store[w.city.name := w.city]
    case Update => if w.city.name in store then store[w.city.name := w.city] else store
    case Delete => store - {w.city.name}
  }

  /** The names a sequence of writes is about. */
  function TouchedNames(ws: seq<LocalWrite>): set<string>
    decreases |ws|
  {
    if |ws| == 0 then {} else {ws[0].city.name} + TouchedNames(ws[1..])
  }

  lemma {:induction false} TouchedAppend(a: seq<LocalWrite>, b: seq<LocalWrite>)
    ensures TouchedNames(a + b) == TouchedNames(a) + TouchedNames(b)
    decreases |a|
  {
    if |a| == 0 {
      assert a + b == b;
    } else {
      TouchedAppend(a[1..], b);
      assert (a + b)[0] == a[0] && (a + b)[1..] == a[1..] + b;
    }
  }

  /** The same write on each city of a list touches exactly the list's names. */
  lemma {:induction false} TouchedTagged(k: WriteKind, s: seq<City>)
    ensures TouchedNames(Tagged(k, s)) == Names(s)
    decreases |s|
  {
    if |s| > 0 {
      TouchedTagged(k, s[1..]);
      assert Tagged(k, s)[1..] == Tagged(k, s[1..]);
    }
  }

  /** The writes applied in order: a row whose name no write mentions keeps
      its record. */
  function ApplyAll(store: LocalStore, ws: seq<LocalWrite>): (r: LocalStore)
    ensures KeepsRowsOutside(store, r, TouchedNames(ws))
    decreases |ws|
  {
    if |ws| == 0 then store else ApplyAll(Apply(store, ws[0]), ws[1..])
  }

  lemma {:induction false} ApplyAllAppend(store: LocalStore, a: seq<LocalWrite>, b: seq<LocalWrite>)
    ensures ApplyAll(store, a + b) == ApplyAll(ApplyAll(store, a), b)
    decreases |a|
  {
    if |a| == 0 {
      assert a + b == b;
    } else {
      ApplyAllAppend(Apply(store, a[0]), a[1..], b);
      assert (a + b)[0] == a[0] && (a + b)[1..] == a[1..] + b;
    }
  }

  /** Storing a city and then laying a view without its name over the store
      is laying the view extended by the city. */
  lemma OverlayAfterUpdate(store: LocalStore, c: City, v: map<string, City>)
    requires c.name !in v
    ensures store[c.name := c] + v == store + v[c.name := c]
  {
  }

  /** Inserting cities with unique names lays their view over the store. */
  lemma {:induction false} ApplyInserts(store: LocalStore, s: seq<City>)
    requires UniqueNames(s)
    ensures ApplyAll(store, Tagged(Insert, s)) == store + View(s)
    decreases |s|
  {
    if |s| > 0 {
      var ws := Tagged(Insert, s);
      var next := store[s[0].name := s[0]];
      UniqueNamesTail(s);
      assert ws[1..] == Tagged(Insert, s[1..]);
      assert ApplyAll(store, ws) == ApplyAll(next, ws[1..]);
      ApplyInserts(next, s[1..]);
      ViewBindsEachCity(s[1..]);
      OverlayAfterUpdate(store, s[0], View(s[1..]));
    }
  }

  /** Updating rows that all exist, with unique names, lays the view over the store. */
  lemma {:induction false} ApplyUpdates(store: LocalStore, s: seq<City>)
    requires UniqueNames(s) && Names(s) <= store.Keys
    ensures ApplyAll(store, Tagged(Update, s)) == store + View(s)
    decreases |s|
  {
    if |s| > 0 {
      var ws := Tagged(Update, s);
      var next := store[s[0].name := s[0]];
      UniqueNamesTail(s);
      assert ws[1..] == Tagged(Update, s[1..]);
      assert ApplyAll(store, ws) == ApplyAll(next, ws[1..]);
      ApplyUpdates(next, s[1..]);
      ViewBindsEachCity(s[1..]);
      OverlayAfterUpdate(store, s[0], View(s[1..]));
    }
  }

  /** Deleting cities removes their names from the store. */
  lemma {:induction false} ApplyDeletes(store: LocalStore, s: seq<City>)
    ensures ApplyAll(store, Tagged(Delete, s)) == store - Names(s)
    decreases |s|
  {
    if |s| > 0 {
      assert Tagged(Delete, s)[1..] == Tagged(Delete, s[1..]);
      ApplyDeletes(store - {s[0].name}, s[1..]);
      assert store - {s[0].name} - Names(s[1..]) == store - Names(s);
    }
  }

  /** The repository's state: the last-known mirror and the local store. */
  datatype Mirror = Mirror(cityMap: CityMap, store: LocalStore)

  /** A repository over an empty local store. The mirror `cityMap` always
      starts empty; the local store is a per-user database that outlives the
      process, so it is empty only on first use. */
  function Start(): Mirror
  {
    Mirror([], map[])
  }

  /** One pass of the collect loop: the step's writes go to the local store and
      its mirror replaces `cityMap`. */
  function Process(m: Mirror, cityList: seq<City>): (r: Mirror)
    ensures UniqueNames(r.cityMap) && Names(r.cityMap) == Names(cityList)
  {
    var st := Step(m.cityMap, cityList);
    AssociateByNames(cityList);
    Mirror(st.cityMap, ApplyAll(m.store, st.writes))
  }

  /** The collect loop over the remote emissions, strictly one after another. */
  function Collect(m: Mirror, emissions: seq<seq<City>>): (r: Mirror)
    ensures |emissions| == 0 ==> r == m
    ensures |emissions| > 0 ==> Names(r.cityMap) == Names(emissions[|emissions| - 1])
    decreases |emissions|
  {
    if |emissions| == 0 then m
    else
      var rest := emissions[1..];
      assert |rest| > 0 ==> rest[|rest| - 1] == emissions[|emissions| - 1];
      Collect(Process(m, emissions[0]), rest)
  }

  /** The local store holds exactly what the mirror says. */
  predicate InSync(m: Mirror)
  {
    UniqueNames(m.cityMap) && m.store == View(m.cityMap)
  }

  /** The store holds exactly the cities of a list with unique names. */
  predicate Holds(store: LocalStore, cityList: seq<City>)
  {
    store.Keys == Names(cityList) && forall c :: c in cityList ==> c.name in store && store[c.name] == c
  }

  /** The store after a step's writes, phase by phase: the new cities laid
      over it, then the known cities, then the vanished names removed. */
  lemma StepWritesApplied(m: Mirror, cityList: seq<City>)
    requires InSync(m) && UniqueNames(cityList)
    ensures ApplyAll(m.store, Step(m.cityMap, cityList).writes) == Phased(m.cityMap, cityList)
  {
    var known := Names(m.cityMap);
    var a := NewCities(m.cityMap, cityList);
    var b := KnownCities(m.cityMap, cityList);
    var d := VanishedCities(m.cityMap, cityList);
    SelectUnique(cityList, known, false);
    SelectUnique(cityList, known, true);
    SelectNames(cityList, known, true);
    ViewBindsEachCity(m.cityMap);
    var s1 := m.store + View(a);
    ApplyAllAppend(m.store, Tagged(Insert, a) + Tagged(Update, b), Tagged(Delete, d));
    ApplyAllAppend(m.store, Tagged(Insert, a), Tagged(Update, b));
    ApplyInserts(m.store, a);
    ApplyUpdates(s1, b);
    ApplyDeletes(s1 + View(b), d);
  }

  /** Two stores that hold exactly the same list are equal. */
  lemma HoldsDetermines(s1: LocalStore, s2: LocalStore, cityList: seq<City>)
    requires Holds(s1, cityList) && Holds(s2, cityList)
    ensures s1 == s2
  {
    forall n | n in s1.Keys
      ensures s1[n] == s2[n]
    {
      InNames(cityList, n);
    }
  }

  /** The store left by the three phases of a step, started from the view of
      the mirror. */
  function Phased(cityMap: CityMap, cityList: seq<City>): LocalStore
  {
    View(cityMap) + View(NewCities(cityMap, cityList)) + View(KnownCities(cityMap, cityList))
      - Names(VanishedCities(cityMap, cityList))
  }

  /** After the three phases the store's rows are exactly the emission's names. */
  lemma PhasedKeys(cityMap: CityMap, cityList: seq<City>)
    ensures Phased(cityMap, cityList).Keys == Names(cityList)
  {
    var known := Names(cityMap);
    SelectNames(cityList, known, false);
    SelectNames(cityList, known, true);
    SelectNames(cityMap, Names(cityList), false);
    ViewBindsEachCity(cityMap);
    ViewBindsEachCity(NewCities(cityMap, cityList));
    ViewBindsEachCity(KnownCities(cityMap, cityList));
  }

  /** The three phases of a step, from a store in sync with the mirror, end
      with a store that holds exactly the emission. */
  lemma PhasesHoldEmission(cityMap: CityMap, cityList: seq<City>)
    requires UniqueNames(cityList)
    ensures Holds(Phased(cityMap, cityList), cityList)
  {
    var known := Names(cityMap);
    var a := NewCities(cityMap, cityList);
    var b := KnownCities(cityMap, cityList);
    SelectUnique(cityList, known, false);
    SelectUnique(cityList, known, true);
    SelectNames(cityList, known, false);
    ViewBindsEachCity(a);
    ViewBindsEachCity(b);
    PhasedKeys(cityMap, cityList);
    SelectNames(cityList, known, true);
    SelectNames(cityMap, Names(cityList), false);
    var s2 := View(cityMap) + View(a) + View(b);
    forall c | c in cityList
      ensures s2[c.name] == c
    {
      if c.name in known {
        assert c in b;
      } else {
        assert c in a;
      }
    }
    forall c | c in cityList
      ensures c.name !in Names(VanishedCities(cityMap, cityList))
    {
      InNames(cityList, c.name);
    }
  }

  /** One emission with unique names, processed from a synchronised state,
      leaves the store synchronised with the new mirror, holding exactly the
      emission's cities. */
  lemma ProcessKeepsInSync(m: Mirror, cityList: seq<City>)
    requires InSync(m) && UniqueNames(cityList)
    ensures InSync(Process(m, cityList))
    ensures Holds(Process(m, cityList).store, cityList)
  {
    StepWritesApplied(m, cityList);
    PhasesHoldEmission(m.cityMap, cityList);
    AssociateByUnique(cityList);
    HoldsDetermines(Process(m, cityList).store, View(AssociateBy(cityList)), cityList);
  }

  /** Starting from any synchronised state and processing emissions with
      unique names, the store stays synchronised with the mirror, and after
      the last emission it holds exactly that emission's cities. */
  lemma {:induction false} CollectKeepsInSync(m: Mirror, emissions: seq<seq<City>>)
    requires InSync(m)
    requires forall k :: 0 <= k < |emissions| ==> UniqueNames(emissions[k])
    ensures InSync(Collect(m, emissions))
    ensures |emissions| > 0 ==> Holds(Collect(m, emissions).store, emissions[|emissions| - 1])
    decreases |emissions|
  {
    if |emissions| > 0 {
      var rest := emissions[1..];
      assert forall k :: 0 <= k < |rest| ==> rest[k] == emissions[k + 1];
      ProcessKeepsInSync(m, emissions[0]);
      CollectKeepsInSync(Process(m, emissions[0]), rest);
      if |rest| > 0 {
        assert rest[|rest| - 1] == emissions[|emissions| - 1];
      }
    }
  }

  /** Starting over an empty local store, after every emission the local
      store mirrors the latest remote city list. A store with rows left from
      an earlier run is not covered: see `StaleRowsSurvive`. */
  lemma MirrorFollowsRemote(emissions: seq<seq<City>>)
    requires forall k :: 0 <= k < |emissions| ==> UniqueNames(emissions[k])
    ensures InSync(Collect(Start(), emissions))
    ensures |emissions| > 0 ==> Holds(Collect(Start(), emissions).store, emissions[|emissions| - 1])
  {
    assert InSync(Start());
    CollectKeepsInSync(Start(), emissions);
  }

  /** Against the mirror of the same list every name is known and none vanished. */
  lemma {:induction false} RestepSelections(cityList: seq<City>)
    ensures NewCities(AssociateBy(cityList), cityList) == []
    ensures KnownCities(AssociateBy(cityList), cityList) == cityList
    ensures VanishedCities(AssociateBy(cityList), cityList) == []
  {
    var m := AssociateBy(cityList);
    AssociateByKeepsLast(cityList);
    forall c | c in cityList
      ensures c.name in Names(m)
    {
      InNames(cityList, c.name);
    }
    SelectAllOrNothing(cityList, Names(m), false);
    SelectAllOrNothing(cityList, Names(m), true);
    forall c | c in m
      ensures c.name in Names(cityList)
    {
      InNames(m, c.name);
    }
    SelectAllOrNothing(m, Names(cityList), false);
  }

  /** Against the mirror of the same list, a step writes exactly one update
      per city, in list order. */
  lemma RestepIsAllUpdates(cityList: seq<City>)
    ensures Step(AssociateBy(cityList), cityList).writes == Tagged(Update, cityList)
  {
    var m := AssociateBy(cityList);
    RestepSelections(cityList);
    var ins := Tagged(Insert, NewCities(m, cityList));
    var del := Tagged(Delete, VanishedCities(m, cityList));
    assert ins == [] && del == [];
    assert Step(m, cityList).writes == ins + Tagged(Update, cityList) + del;
  }

  /** Replaying an emission: the second step issues one update per city and
      no insert or delete, and leaves the mirror and the store as they were. */
  lemma ReplayIsQuiet(m: Mirror, cityList: seq<City>)
    requires InSync(m) && UniqueNames(cityList)
    ensures forall w :: w in Step(Process(m, cityList).cityMap, cityList).writes ==> w.kind == Update
    ensures |Step(Process(m, cityList).cityMap, cityList).writes| == |cityList|
    ensures Process(Process(m, cityList), cityList) == Process(m, cityList)
  {
    var m1 := Process(m, cityList);
    RestepIsAllUpdates(cityList);
    ProcessKeepsInSync(m, cityList);
    ProcessKeepsInSync(m1, cityList);
    HoldsDetermines(Process(m1, cityList).store, m1.store, cityList);
  }

  /** A remote mutation request of the repository. */
  datatype Mutation = AddCity | RemoveCity | UpdateCity
  datatype RemoteCall = RemoteCall(op: Mutation, city: City)

  /** What a mutation entry point leaves behind: the repository state and the
      call it launches against the remote store. */
  datatype Forwarded = Forwarded(mirror: Mirror, call: RemoteCall)

  /** `add(city)`: launches `fbDB.add`. */
  function ForwardAdd(m: Mirror, city: City): (r: Forwarded)
    ensures r.mirror == m
    ensures r.call.op == AddCity && r.call.city == city
  {
    Forwarded(m, RemoteCall(AddCity, city))
  }

  /** `remove(city)`: launches `fbDB.remove`. */
  function ForwardRemove(m: Mirror, city: City): (r: Forwarded)
    ensures r.mirror == m
    ensures r.call.op == RemoveCity && r.call.city == city
  {
    Forwarded(m, RemoteCall(RemoveCity, city))
  }

  /** `update(city)`: launches `fbDB.update`. */
  function ForwardUpdate(m: Mirror, city: City): (r: Forwarded)
    ensures r.mirror == m
    ensures r.call.op == UpdateCity && r.call.city == city
  {
    Forwarded(m, RemoteCall(UpdateCity, city))
  }

  /** The names a step writes to are names of the mirror or of the emission. */
  lemma StepTouchesKnownNames(cityMap: CityMap, cityList: seq<City>)
    ensures TouchedNames(Step(cityMap, cityList).writes) <= Names(cityMap) + Names(cityList)
  {
    var a := NewCities(cityMap, cityList);
    var b := KnownCities(cityMap, cityList);
    var d := VanishedCities(cityMap, cityList);
    TouchedAppend(Tagged(Insert, a) + Tagged(Update, b), Tagged(Delete, d));
    TouchedAppend(Tagged(Insert, a), Tagged(Update, b));
    TouchedTagged(Insert, a);
    TouchedTagged(Update, b);
    TouchedTagged(Delete, d);
    SelectNames(cityList, Names(cityMap), false);
    SelectNames(cityList, Names(cityMap), true);
    SelectNames(cityMap, Names(cityList), false);
  }

  /** A local row whose name neither the mirror nor the emission knows (a row
      left in the store from before the mirror was built) survives the step
      unchanged: nothing ever deletes it. */
  lemma StaleRowsSurvive(m: Mirror, cityList: seq<City>, n: string)
    requires n in m.store && n !in Names(m.cityMap) && n !in Names(cityList)
    ensures n in Process(m, cityList).store && Process(m, cityList).store[n] == m.store[n]
  {
    StepTouchesKnownNames(m.cityMap, cityList);
  }

  /** The mutation entry points only forward the unchanged city to the remote
      store: neither the mirror nor the local store moves, so the next
      emission is processed exactly as without them. */
  lemma MutationsOnlyForward(m: Mirror, city: City, cityList: seq<City>)
    ensures ForwardAdd(m, city) == Forwarded(m, RemoteCall(AddCity, city))
    ensures ForwardRemove(m, city) == Forwarded(m, RemoteCall(RemoveCity, city))
    ensures ForwardUpdate(m, city) == Forwarded(m, RemoteCall(UpdateCity, city))
    ensures Process(ForwardAdd(m, city).mirror, cityList) == Process(m, cityList)
    ensures Process(ForwardRemove(m, city).mirror, cityList) == Process(m, cityList)
    ensures Process(ForwardUpdate(m, city).mirror, cityList) == Process(m, cityList)
  {
  }

  /** The names of the scenario below. */
  lemma ExampleNames(a: City, b: City, c: City, b': City, c': City, d: City)
    requires a.name == "A" && b.name == "B" && c.name == "C"
    requires b'.name == "B" && c'.name == "C" && d.name == "D"
    ensures Names([a, b, c]) == {"A", "B", "C"}
    ensures Names([b', c', d]) == {"B", "C", "D"}
  {
    assert [a, b, c][1..] == [b, c] && [b, c][1..] == [c] && [c][1..] == [];
    assert [b', c', d][1..] == [c', d] && [c', d][1..] == [d] && [d][1..] == [];
    assert Names([c]) == {"C"} && Names([d]) == {"D"};
    assert Names([b, c]) == {"B", "C"} && Names([c', d]) == {"C", "D"};
  }

  /** Known names {A, B, C} and an emission {B, C, D}: one insert (D), updates
      carrying the incoming records of B and C, and one delete of the stored
      record of A, in that order, whatever the records hold besides their names. */
  lemma SetDifferenceExample(a: City, b: City, c: City, b': City, c': City, d: City)
    requires a.name == "A" && b.name == "B" && c.name == "C"
    requires b'.name == "B" && c'.name == "C" && d.name == "D"
    ensures Step([a, b, c], [b', c', d]).writes
      == [LocalWrite(Insert, d), LocalWrite(Update, b'), LocalWrite(Update, c'), LocalWrite(Delete, a)]
  {
    var known := [a, b, c];
    var incoming := [b', c', d];
    ExampleNames(a, b, c, b', c', d);
    var kn := Names(known);
    var inc := Names(incoming);
    assert incoming[1..] == [c', d] && [c', d][1..] == [d] && [d][1..] == [];
    assert known[1..] == [b, c] && [b, c][1..] == [c] && [c][1..] == [];
    assert Select([d], kn, false) == [d];
    assert Select([c', d], kn, false) == [d];
    assert Select(incoming, kn, false) == [d];
    assert Select([d], kn, true) == [];
    assert Select([c', d], kn, true) == [c'];
    assert Select(incoming, kn, true) == [b', c'];
    assert Select([c], inc, false) == [];
    assert Select([b, c], inc, false) == [];
    assert Select(known, inc, false) == [a];
  }
}
