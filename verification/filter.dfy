/** Candidate selection (src/logic/filter.rs): keep the catalogue entries that
    suit the request, then order them with the user's preferred identifiers
    first and by name within each group, keeping catalogue order among equals. */
module Filter {
  import opened Wrappers
  import opened Vegetables
  import opened Requests

  /** The survival test applied to each catalogue entry. */
  predicate Keep(v: Vegetable, req: PlanRequest)
  {
    && req.season in v.seasons
    && (req.sun.Some? ==> req.sun.value in v.sunRequirement)
    && (req.soil.Some? ==> req.soil.value in v.soilTypes)
    && (req.region.Some? ==> req.region.value in v.regions)
    && (req.level == Some(Beginner) ==> v.beginnerFriendly)
  }

  /** The preferred identifiers; an absent list means none. */
  function Preferences(req: PlanRequest): seq<string>
  {
    if req.preferences.Some? then req.preferences.value else []
  }

  /** The catalogue entries that pass `Keep`, in catalogue order. */
  function Survivors(db: seq<Vegetable>, req: PlanRequest): (s: seq<Vegetable>)
    ensures forall v :: v in s <==> v in db && Keep(v, req)
  {
    if |db| == 0 then []
    else (if Keep(db[0], req) then [db[0]] else []) + Survivors(db[1..], req)
  }

  /** Filtering a concatenation filters each part and keeps them in order;
      with the singleton case this pins the survivors down as the catalogue's
      suitable entries in catalogue order. */
  lemma {:induction false} SurvivorsAppend(a: seq<Vegetable>, b: seq<Vegetable>, req: PlanRequest)
    ensures Survivors(a + b, req) == Survivors(a, req) + Survivors(b, req)
  {
    if |a| > 0 {
      assert (a + b)[0] == a[0];
      assert (a + b)[1..] == a[1..] + b;
      SurvivorsAppend(a[1..], b, req);
    } else {
      assert a + b == b;
    }
  }

  /** A single entry survives on its own exactly when it passes `Keep`. */
  lemma SurvivorsSingle(v: Vegetable, req: PlanRequest)
    ensures Survivors([v], req) == if Keep(v, req) then [v] else []
  {
    assert [v][1..] == [];
  }

  /** Each suitable entry survives as often as the catalogue holds it; the
      others not at all. */
  lemma {:induction false} SurvivorsCount(db: seq<Vegetable>, req: PlanRequest, v: Vegetable)
    ensures multiset(Survivors(db, req))[v] == if Keep(v, req) then multiset(db)[v] else 0
  {
    if |db| > 0 {
      SurvivorsCount(db[1..], req, v);
      assert db == [db[0]] + db[1..];
    }
  }

  /** Lexicographic order on names, character by character; a proper prefix
      comes first. */
  predicate NameLe(a: string, b: string)
  {
    |a| == 0 || (|b| > 0 && (a[0] < b[0] || (a[0] == b[0] && NameLe(a[1..], b[1..]))))
  }

  lemma {:induction false} NameLeReflexive(a: string)
    ensures NameLe(a, a)
  {
    if |a| > 0 {
      NameLeReflexive(a[1..]);
    }
  }

  lemma {:induction false} NameLeTotal(a: string, b: string)
    ensures NameLe(a, b) || NameLe(b, a)
  {
    if |a| > 0 && |b| > 0 && a[0] == b[0] {
      NameLeTotal(a[1..], b[1..]);
    }
  }

  lemma {:induction false} NameLeTransitive(a: string, b: string, c: string)
    requires NameLe(a, b) && NameLe(b, c)
    ensures NameLe(a, c)
  {
    if |a| > 0 && |b| > 0 && |c| > 0 && a[0] == b[0] == c[0] {
      NameLeTransitive(a[1..], b[1..], c[1..]);
    }
  }

  /** `a` may come before `b`: the comparator does not answer Greater.
      Preferred beats non-preferred; otherwise names decide. */
  predicate Precedes(a: Vegetable, b: Vegetable, prefs: seq<string>)
  {
    || (a.id in prefs && b.id !in prefs)
    || ((a.id in prefs) == (b.id in prefs) && NameLe(a.name, b.name))
  }

  lemma PrecedesTotal(a: Vegetable, b: Vegetable, prefs: seq<string>)
    ensures Precedes(a, b, prefs) || Precedes(b, a, prefs)
  {
    NameLeTotal(a.name, b.name);
  }

  lemma PrecedesTransitive(a: Vegetable, b: Vegetable, c: Vegetable, prefs: seq<string>)
    requires Precedes(a, b, prefs) && Precedes(b, c, prefs)
    ensures Precedes(a, c, prefs)
  {
    if (a.id in prefs) == (b.id in prefs) == (c.id in prefs) {
      NameLeTransitive(a.name, b.name, c.name);
    }
  }

  /** Every entry may come before every later one. */
  ghost predicate Sorted(s: seq<Vegetable>, prefs: seq<string>)
  {
    forall i, j :: 0 <= i < j < |s| ==> Precedes(s[i], s[j], prefs)
  }

  /** Inserts `x` before the first entry it may precede, so that `x` stays
      ahead of the entries that compare equal to it. */
  function Insert(x: Vegetable, s: seq<Vegetable>, prefs: seq<string>): (r: seq<Vegetable>)
    ensures multiset(r) == multiset(s) + multiset{x}
  {
    if |s| == 0 then [x]
    else if Precedes(x, s[0], prefs) then [x] + s
    else
      assert s == [s[0]] + s[1..];
      [s[0]] + Insert(x, s[1..], prefs)
  }

  lemma {:induction false} InsertSorted(x: Vegetable, s: seq<Vegetable>, prefs: seq<string>)
    requires Sorted(s, prefs)
    ensures Sorted(Insert(x, s, prefs), prefs)
  {
    if |s| == 0 {
    } else if Precedes(x, s[0], prefs) {
      var r := [x] + s;
      forall i, j | 0 <= i < j < |r|
        ensures Precedes(r[i], r[j], prefs)
      {
        if i == 0 && j > 1 {
          PrecedesTransitive(x, s[0], s[j - 1], prefs);
        }
      }
    } else {
      var tail := Insert(x, s[1..], prefs);
      InsertSorted(x, s[1..], prefs);
      PrecedesTotal(x, s[0], prefs);
      var r := [s[0]] + tail;
      forall j | 0 < j < |r|
        ensures Precedes(s[0], r[j], prefs)
      {
        assert r[j] in multiset(tail);
        assert r[j] == x || r[j] in s[1..];
      }
    }
  }

  /** A stable insertion sort under `Precedes`; `sort_by` in the source is a
      stable sort, so its result is this one. */
  function SortByPriority(s: seq<Vegetable>, prefs: seq<string>): (r: seq<Vegetable>)
    ensures multiset(r) == multiset(s)
    ensures Sorted(r, prefs)
  {
    if |s| == 0 then []
    else
      assert s == [s[0]] + s[1..];
      var tail := SortByPriority(s[1..], prefs);
      InsertSorted(s[0], tail, prefs);
      Insert(s[0], tail, prefs)
  }

  /** The entries of `s`, in order, with the given preference status and name:
      the entries the comparator treats as equal. */
  function Group(s: seq<Vegetable>, prefs: seq<string>, preferred: bool, name: string): seq<Vegetable>
  {
    if |s| == 0 then []
    else
      (if InGroup(s[0], prefs, preferred, name) then [s[0]] else [])
      + Group(s[1..], prefs, preferred, name)
  }

  /** The group membership test for one entry. */
  predicate InGroup(x: Vegetable, prefs: seq<string>, preferred: bool, name: string)
  {
    (x.id in prefs) == preferred && x.name == name
  }

  lemma GroupCons(y: Vegetable, t: seq<Vegetable>, prefs: seq<string>, preferred: bool, name: string)
    ensures Group([y] + t, prefs, preferred, name)
         == (if InGroup(y, prefs, preferred, name) then [y] else []) + Group(t, prefs, preferred, name)
  {
    assert ([y] + t)[0] == y;
    assert ([y] + t)[1..] == t;
  }

  /** An entry that may not precede the head goes somewhere behind it. */
  lemma InsertBehind(x: Vegetable, s: seq<Vegetable>, prefs: seq<string>)
    requires |s| > 0 && !Precedes(x, s[0], prefs)
    ensures Insert(x, s, prefs) == [s[0]] + Insert(x, s[1..], prefs)
  {
  }

  lemma {:induction false} InsertGroup(x: Vegetable, s: seq<Vegetable>, prefs: seq<string>, preferred: bool, name: string)
    ensures Group(Insert(x, s, prefs), prefs, preferred, name)
         == (if InGroup(x, prefs, preferred, name) then [x] else []) + Group(s, prefs, preferred, name)
  {
    if |s| == 0 {
      GroupCons(x, s, prefs, preferred, name);
    } else if Precedes(x, s[0], prefs) {
      GroupCons(x, s, prefs, preferred, name);
    } else {
      var gx := if InGroup(x, prefs, preferred, name) then [x] else [];
      var g0 := if InGroup(s[0], prefs, preferred, name) then [s[0]] else [];
      var rest := Group(s[1..], prefs, preferred, name);
      InsertBehind(x, s, prefs);
      GroupCons(s[0], Insert(x, s[1..], prefs), prefs, preferred, name);
      InsertGroup(x, s[1..], prefs, preferred, name);
      assert Group(s, prefs, preferred, name) == g0 + rest;
      if InGroup(x, prefs, preferred, name) {
        NameLeReflexive(x.name);
        assert !InGroup(s[0], prefs, preferred, name);
      }
      SwapAroundEmpty(g0, gx, rest);
    }
  }

  /** Two prefixes commute when one of them is empty. */
  lemma SwapAroundEmpty<T>(a: seq<T>, b: seq<T>, c: seq<T>)
    requires a == [] || b == []
    ensures a + (b + c) == b + (a + c)
  {
  }

  /** Sorting keeps every group of equal entries in its original order. */
  lemma {:induction false} SortIsStable(s: seq<Vegetable>, prefs: seq<string>, preferred: bool, name: string)
    ensures Group(SortByPriority(s, prefs), prefs, preferred, name) == Group(s, prefs, preferred, name)
  {
    if |s| > 0 {
      SortIsStable(s[1..], prefs, preferred, name);
      InsertGroup(s[0], SortByPriority(s[1..], prefs), prefs, preferred, name);
    }
  }

  /** filter_vegetables: the suitable entries, preferred first, then by name. */
  function FilterVegetables(db: seq<Vegetable>, req: PlanRequest): (r: seq<Vegetable>)
    ensures forall i :: 0 <= i < |r| ==> Keep(r[i], req)
    ensures multiset(r) == multiset(Survivors(db, req))
    ensures Sorted(r, Preferences(req))
  {
    var r := SortByPriority(Survivors(db, req), Preferences(req));
    assert forall i :: 0 <= i < |r| ==> r[i] in multiset(Survivors(db, req));
    r
  }

  /** Every result entry grows in the requested season and meets each
      requested sun, soil, region and beginner constraint. */
  lemma FilterMeetsRequest(db: seq<Vegetable>, req: PlanRequest)
    ensures forall v :: v in FilterVegetables(db, req) ==>
      && req.season in v.seasons
      && (req.sun.Some? ==> req.sun.value in v.sunRequirement)
      && (req.soil.Some? ==> req.soil.value in v.soilTypes)
      && (req.region.Some? ==> req.region.value in v.regions)
      && (req.level == Some(Beginner) ==> v.beginnerFriendly)
  {
  }

  /** The result holds exactly the suitable catalogue entries, each as often
      as the catalogue does. */
  lemma FilterKeepsExactlySurvivors(db: seq<Vegetable>, req: PlanRequest)
    ensures forall v :: v in FilterVegetables(db, req) <==> v in db && Keep(v, req)
    ensures |FilterVegetables(db, req)| == |Survivors(db, req)|
  {
    var r := FilterVegetables(db, req);
    assert forall v :: v in r <==> v in multiset(r);
    assert |r| == |multiset(r)| == |multiset(Survivors(db, req))| == |Survivors(db, req)|;
  }

  /** Preferred entries come before all others. */
  lemma FilterPreferredFirst(db: seq<Vegetable>, req: PlanRequest)
    ensures var r := FilterVegetables(db, req);
      forall i, j :: 0 <= i < j < |r| && r[j].id in Preferences(req) ==> r[i].id in Preferences(req)
  {
  }

  /** If some suitable entry is preferred, the first result is preferred. */
  lemma FilterFirstIsPreferred(db: seq<Vegetable>, req: PlanRequest, v: Vegetable)
    requires v in db && Keep(v, req) && v.id in Preferences(req)
    ensures var r := FilterVegetables(db, req); |r| > 0 && r[0].id in Preferences(req)
  {
    var r := FilterVegetables(db, req);
    FilterKeepsExactlySurvivors(db, req);
    var j :| 0 <= j < |r| && r[j] == v;
    FilterPreferredFirst(db, req);
  }

  /** Within the preferred group and within the rest, names never decrease. */
  lemma FilterNamesOrderedInGroup(db: seq<Vegetable>, req: PlanRequest)
    ensures var r := FilterVegetables(db, req); var prefs := Preferences(req);
      forall i, j :: 0 <= i < j < |r| && (r[i].id in prefs) == (r[j].id in prefs) ==> NameLe(r[i].name, r[j].name)
  {
  }

  /** Entries with the same preference status and the same name appear in
      catalogue order. */
  lemma FilterIsStable(db: seq<Vegetable>, req: PlanRequest, preferred: bool, name: string)
    ensures Group(FilterVegetables(db, req), Preferences(req), preferred, name)
         == Group(Survivors(db, req), Preferences(req), preferred, name)
  {
    SortIsStable(Survivors(db, req), Preferences(req), preferred, name);
  }
}
