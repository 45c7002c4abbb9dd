/** The data-zone allocator: how many zones are free, and why a merge always has somewhere to go. */
module Allocator {
  import opened Geometry
  import opened FtlState
  import opened Collections

  /** Smallest EMPTY data zone at or after `from`, or -1. */
  ghost function FirstEmpty(g: Geometry, states: seq<int>, from: int): (d: int)
    requires |states| == g.Zones() && g.logZones <= from <= g.Zones()
    ensures d == -1 <==> forall i :: from <= i < g.Zones() ==> states[i] != EMPTY_ZONE
    ensures d != -1 ==> from <= d < g.Zones() && states[d] == EMPTY_ZONE
    ensures d != -1 ==> forall i :: from <= i < d ==> states[i] != EMPTY_ZONE
    decreases g.Zones() - from
  {
    if from == g.Zones() then -1
    else if states[from] == EMPTY_ZONE then from
    else FirstEmpty(g, states, from + 1)
  }

  ghost function DataZones(g: Geometry): set<int> { Interval(g.logZones, g.Zones()) }

  ghost function EmptyZones(g: Geometry, st: State): set<int>
    requires |st.states| == g.Zones()
  {
    set d | d in DataZones(g) && st.states[d] == EMPTY_ZONE
  }

  ghost function Homes(g: Geometry, dataMap: map<int, int>, zs: set<int>): set<int>
    requires g.Valid() && zs <= dataMap.Keys
  {
    set z | z in zs :: Home(g, dataMap, z)
  }

  /** Distinct logical zones occupy distinct data zones, so counting either is the same. */
  lemma {:induction false} HomesSize(g: Geometry, dataMap: map<int, int>, zs: set<int>)
    requires g.Valid() && zs <= dataMap.Keys && DataMapOk(g, dataMap)
    ensures |Homes(g, dataMap, zs)| == |zs|
    decreases zs
  {
    if zs == {} {
      assert Homes(g, dataMap, zs) == {};
    } else {
      var z := AnyElement(zs);
      HomesSize(g, dataMap, zs - {z});
      assert Homes(g, dataMap, zs) == Homes(g, dataMap, zs - {z}) + {Home(g, dataMap, z)};
    }
  }

  /** EMPTY data zones and mapped logical zones add up to the data zones. */
  lemma AllocatorBalance(g: Geometry, st: State)
    requires MergeReady(g, st)
    ensures |EmptyZones(g, st)| + |st.dataMap| == g.dataZones
  {
    var homes := Homes(g, st.dataMap, st.dataMap.Keys);
    HomesSize(g, st.dataMap, st.dataMap.Keys);
    forall d | d in DataZones(g)
      ensures d in EmptyZones(g, st) <==> d !in homes
    {
      assert g.IsDataZone(d);
      assert d in homes <==> Mapped(g, st.dataMap, d);
    }
    assert DataZones(g) == EmptyZones(g, st) + homes;
    assert |st.dataMap| == |st.dataMap.Keys|;
  }

  /** When no data zone is EMPTY every logical zone already has a data zone to be rewritten in place. */
  lemma AlwaysHome(g: Geometry, st: State, z: int)
    requires MergeReady(g, st) && g.IsDataZone(z)
    requires FirstEmpty(g, st.states, g.logZones) == -1
    ensures z in st.dataMap
  {
    AllocatorBalance(g, st);
    assert EmptyZones(g, st) == {};
    assert forall k :: k in st.dataMap ==> k in DataZones(g);
    assert |st.dataMap| == |st.dataMap.Keys|;
    SubsetSize(st.dataMap.Keys, DataZones(g));
    assert z in DataZones(g);
  }
}
