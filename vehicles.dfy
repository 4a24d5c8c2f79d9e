/**
 Identities of routes and probe vehicles, the per-vehicle tracking record, and the
 insertion-ordered table (`vehicle_info`) that holds the records of the vehicles
 still being tracked.
 */
module Vehicles {

  type RouteId = string
  type VehId = string

  /** Every probe vehicle is named after its route: the probe for route `r` is "veh_" + r. */
  const VehPrefix: string := "veh_"

  function VehicleIdFor(route: RouteId): (v: VehId)
    ensures |v| == |VehPrefix| + |route|
    ensures v[..|VehPrefix|] == VehPrefix && v[|VehPrefix|..] == route
  {
    VehPrefix + route
  }

  /** Distinct route ids give distinct vehicle ids, and the same route always the same id. */
  lemma VehicleIdInjective(r1: RouteId, r2: RouteId)
    ensures VehicleIdFor(r1) == VehicleIdFor(r2) <==> r1 == r2
  {
    if VehicleIdFor(r1) == VehicleIdFor(r2) {
      assert r1 == VehicleIdFor(r1)[|VehPrefix|..];
      assert r2 == VehicleIdFor(r2)[|VehPrefix|..];
    }
  }

  /** The tracking state of one probe vehicle: its route and its consecutive-stall counter. */
  datatype Record = Record(route: RouteId, stallCount: nat)

  predicate Distinct<T(==)>(s: seq<T>)
  {
    forall i, j :: 0 <= i < j < |s| ==> s[i] != s[j]
  }

  /** The set of elements of a sequence. */
  ghost function Elems<T>(s: seq<T>): set<T>
  {
    set x | x in s
  }

  lemma DistinctAppend<T>(s: seq<T>, x: T)
    requires Distinct(s) && x !in s
    ensures Distinct(s + [x]) && Elems(s + [x]) == Elems(s) + {x}
  {
  }

  lemma AppendAssoc<T>(a: seq<T>, b: seq<T>, c: seq<T>)
    ensures (a + b) + c == a + (b + c)
  {
  }

  /**
   The table of tracked vehicles, as a dictionary that remembers insertion order:
   `keys` lists each tracked vehicle exactly once, oldest first.
   */
  ghost predicate TableOk(keys: seq<VehId>, info: map<VehId, Record>)
  {
    Distinct(keys) && forall v :: v in info <==> v in keys
  }

  /** Deleting one key from the insertion order keeps the order of all others. */
  function Without(keys: seq<VehId>, v: VehId): (r: seq<VehId>)
    ensures forall u :: u in r <==> u in keys && u != v
    ensures Distinct(keys) ==> Distinct(r)
  {
    if keys == [] then []
    else if keys[0] == v then Without(keys[1..], v)
    else
      var rest := Without(keys[1..], v);
      DistinctCons(keys);
      [keys[0]] + rest
  }

  /** Deleting a key that is not there leaves the insertion order as it is. */
  lemma {:induction false} WithoutAbsent(keys: seq<VehId>, v: VehId)
    requires v !in keys
    ensures Without(keys, v) == keys
  {
    if keys != [] {
      assert v !in keys[1..];
      WithoutAbsent(keys[1..], v);
    }
  }

  /**
   Deleting the key at position `k` of a distinct insertion order cuts out exactly that
   position: every key before and after it keeps its place.
   */
  lemma {:induction false} WithoutAt(keys: seq<VehId>, v: VehId, k: nat)
    requires Distinct(keys) && k < |keys| && keys[k] == v
    ensures Without(keys, v) == keys[..k] + keys[k + 1..]
  {
    DistinctCons(keys);
    if k == 0 {
      WithoutAbsent(keys[1..], v);
    } else {
      assert keys[1..][k - 1] == v;
      WithoutAt(keys[1..], v, k - 1);
      assert keys[1..][..k - 1] == keys[1..k] && keys[1..][k..] == keys[k + 1..];
      assert [keys[0]] + keys[1..k] == keys[..k];
    }
  }

  lemma DistinctCons<T>(s: seq<T>)
    requires s != []
    ensures Distinct(s) <==> s[0] !in s[1..] && Distinct(s[1..])
  {
    if Distinct(s) {
      forall i, j | 0 <= i < j < |s| - 1
        ensures s[1..][i] != s[1..][j]
      {
        assert s[1..][i] == s[i + 1] && s[1..][j] == s[j + 1];
      }
    }
    if s[0] !in s[1..] && Distinct(s[1..]) {
      forall i, j | 0 <= i < j < |s|
        ensures s[i] != s[j]
      {
        if i == 0 {
          assert s[j] == s[1..][j - 1];
        } else {
          assert s[i] == s[1..][i - 1] && s[j] == s[1..][j - 1];
        }
      }
    }
  }

  /** The routes that some tracked vehicle is still probing. */
  ghost function RoutesOf(info: map<VehId, Record>): set<RouteId>
  {
    set v | v in info :: info[v].route
  }

  /** No two tracked vehicles probe the same route. */
  ghost predicate RoutesDistinct(info: map<VehId, Record>)
  {
    forall u, v :: u in info && v in info && u != v ==> info[u].route != info[v].route
  }

  /** Every tracked vehicle is keyed by the id derived from its own route. */
  ghost predicate Keyed(info: map<VehId, Record>)
  {
    forall v :: v in info ==> v == VehicleIdFor(info[v].route)
  }

  lemma KeyedRoutesDistinct(info: map<VehId, Record>)
    requires Keyed(info)
    ensures RoutesDistinct(info)
  {
  }

  /** Removing a vehicle removes exactly its route from the live routes. */
  lemma RoutesOfRemove(info: map<VehId, Record>, v: VehId)
    requires v in info && RoutesDistinct(info)
    ensures RoutesOf(info - {v}) == RoutesOf(info) - {info[v].route}
    ensures RoutesDistinct(info - {v})
  {
    var r := info[v].route;
    forall q | q in RoutesOf(info) - {r}
      ensures q in RoutesOf(info - {v})
    {
      var u :| u in info && info[u].route == q;
      assert u != v;
      assert (info - {v})[u].route == q;
    }
  }

  /** Changing only the counter of a vehicle leaves the live routes as they were. */
  lemma RoutesOfRecount(info: map<VehId, Record>, v: VehId, count: nat)
    requires v in info
    ensures RoutesOf(info[v := Record(info[v].route, count)]) == RoutesOf(info)
    ensures RoutesDistinct(info) ==> RoutesDistinct(info[v := Record(info[v].route, count)])
  {
    var info' := info[v := Record(info[v].route, count)];
    forall q | q in RoutesOf(info)
      ensures q in RoutesOf(info')
    {
      var u :| u in info && info[u].route == q;
      assert info'[u].route == q;
    }
  }

  /**
   Registering the probe of route `r` under its derived id, with a zero counter, keeps
   every record keyed by its route and adds exactly `r` to the live routes.
   */
  lemma RegisterRoute(info: map<VehId, Record>, r: RouteId)
    requires Keyed(info)
    ensures Keyed(info[VehicleIdFor(r) := Record(r, 0)])
    ensures RoutesOf(info[VehicleIdFor(r) := Record(r, 0)]) == RoutesOf(info) + {r}
  {
    var v := VehicleIdFor(r);
    var info' := info[v := Record(r, 0)];
    assert info'[v].route == r;
    forall q | q in RoutesOf(info)
      ensures q in RoutesOf(info')
    {
      var u :| u in info && info[u].route == q;
      if u == v {
        VehicleIdInjective(q, r);
      } else {
        assert info'[u].route == q;
      }
    }
  }
}
