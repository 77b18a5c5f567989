/**
 * The sequential rules of `startContest` in handin/main.c: the judge sends
 * every live record to the inspector whose areas include the record's area,
 * each inspector answers with an egg count per contestant, and the judge
 * keeps the first result with the strictly largest count.
 */
module Contest {
  import opened Common
  import opened Records
  import opened RecordStore

  /** The areas of the first and of the second inspector. */
  const Areas1: seq<string> := ["Barátfa", "Lovas", "Kígyós-patak", "Káposztás kert"]
  const Areas2: seq<string> := ["Szula", "Malom telek", "Páskom"]
  const InspectorAreas: seq<seq<string>> := [Areas1, Areas2]

  /** `t_result`: a contestant's name and the eggs it collected. */
  datatype ContestResult = ContestResult(name: string, collected: int)

  predicate Distinct(s: seq<string>)
  {
    forall a, b :: 0 <= a < b < |s| ==> s[a] != s[b]
  }

  /** The two inspectors split the seven areas between them: no area is
      listed twice, and every valid area belongs to exactly one inspector. */
  lemma InspectorAreasPartition()
    ensures Distinct(Areas1) && Distinct(Areas2)
    ensures forall a :: a in ValidAreas ==> (a in Areas1 <==> a !in Areas2)
    ensures forall a :: a in Areas1 ==> a in ValidAreas
    ensures forall a :: a in Areas2 ==> a in ValidAreas
  {
  }

  /** What an inspector with these areas is sent: the live records whose
      area it lists, in slot order. */
  function RoutedTo(live: seq<Person>, areas: seq<string>): (routed: seq<Person>)
    ensures |routed| <= |live|
  {
    if live == [] then []
    else RoutedTo(live[..|live| - 1], areas)
         + (if live[|live| - 1].area in areas then [live[|live| - 1]] else [])
  }

  lemma RoutedToAppend(live: seq<Person>, p: Person, areas: seq<string>)
    ensures RoutedTo(live + [p], areas)
         == RoutedTo(live, areas) + (if p.area in areas then [p] else [])
  {
    assert (live + [p])[..|live|] == live;
  }

  /** A record whose area is valid reaches exactly one inspector, so when every
      live record has a valid area the two inspectors together get them all. */
  lemma {:induction false} RoutingCoversValid(live: seq<Person>)
    requires forall k :: 0 <= k < |live| ==> live[k].area in ValidAreas
    ensures |RoutedTo(live, Areas1)| + |RoutedTo(live, Areas2)| == |live|
  {
    if live != [] {
      InspectorAreasPartition();
      RoutingCoversValid(live[..|live| - 1]);
    }
  }

  /** The judge's routing loop: for each used slot, each inspector and each
      of its areas, a live record with that area is written to that
      inspector's pipe and counted in `contestantCount`. */
  method Route(store: Store) returns (sent: seq<seq<Person>>, contestantCount: seq<int>)
    requires store.Valid()
    ensures |sent| == |InspectorAreas| && |contestantCount| == |InspectorAreas|
    ensures forall j :: 0 <= j < |InspectorAreas| ==>
      sent[j] == RoutedTo(store.Live(), InspectorAreas[j]) && contestantCount[j] == |sent[j]|
  {
    InspectorAreasPartition();
    var slots := store.slots;
    sent := [[], []];
    contestantCount := [0, 0];
    var i := 0;
    while i < store.count
      invariant 0 <= i <= store.count
      invariant |sent| == 2 && |contestantCount| == 2
      invariant forall j :: 0 <= j < 2 ==>
        sent[j] == RoutedTo(LiveOf(slots[..i]), InspectorAreas[j]) && contestantCount[j] == |sent[j]|
    {
      ghost var liveBefore := LiveOf(slots[..i]);
      ghost var liveAfter := LiveOf(slots[..i + 1]);
      assert slots[..i + 1] == slots[..i] + [slots[i]];
      LiveOfAppend(slots[..i], [slots[i]]);
      LiveOfSingle(slots[i]);
      var j := 0;
      while j < 2
        invariant 0 <= j <= 2
        invariant |sent| == 2 && |contestantCount| == 2
        invariant forall jj :: 0 <= jj < 2 ==> contestantCount[jj] == |sent[jj]|
        invariant forall jj :: 0 <= jj < j ==> sent[jj] == RoutedTo(liveAfter, InspectorAreas[jj])
        invariant forall jj :: j <= jj < 2 ==> sent[jj] == RoutedTo(liveBefore, InspectorAreas[jj])
      {
        var areas := InspectorAreas[j];
        assert Distinct(areas);
        ghost var others := sent;
        var k := 0;
        while k < |areas|
          invariant 0 <= k <= |areas|
          invariant |sent| == 2 && |contestantCount| == 2
          invariant forall jj :: 0 <= jj < 2 ==> contestantCount[jj] == |sent[jj]|
          invariant forall jj :: 0 <= jj < 2 && jj != j ==> sent[jj] == others[jj]
          invariant sent[j] == RoutedTo(liveBefore, areas)
            + (if slots[i].Some? && slots[i].value.area in areas[..k] then [slots[i].value] else [])
        {
          if slots[i].Some? && areas[k] == slots[i].value.area {
            assert slots[i].value.area !in areas[..k];
            sent := sent[j := sent[j] + [slots[i].value]];
            contestantCount := contestantCount[j := contestantCount[j] + 1];
          }
          assert areas[..k + 1] == areas[..k] + [areas[k]];
          k := k + 1;
        }
        assert areas[..k] == areas;
        if slots[i].Some? {
          RoutedToAppend(liveBefore, slots[i].value, areas);
        } else {
          assert liveAfter == liveBefore;
        }
        j := j + 1;
      }
      i := i + 1;
    }
    assert slots[..store.count] == slots[..i];
  }

  /** What an inspector sends back: for each contestant it received, in
      order, its name and `randomBetween(1, 100)` eggs. */
  function InspectorResults(persons: seq<Person>, draws: seq<nat>): (rs: seq<ContestResult>)
    requires |draws| >= |persons|
    ensures |rs| == |persons|
    ensures forall k :: 0 <= k < |rs| ==> rs[k].name == persons[k].name && 1 <= rs[k].collected <= 100
  {
    seq(|persons|, k requires 0 <= k < |persons| => ContestResult(persons[k].name, RandomBetween(1, 100, draws[k])))
  }

  function Collected(rs: seq<ContestResult>): (c: seq<int>)
    ensures |c| == |rs| && forall k :: 0 <= k < |rs| ==> c[k] == rs[k].collected
  {
    seq(|rs|, k requires 0 <= k < |rs| => rs[k].collected)
  }

  /** The judge's winner loop, over the results in the order it reads them:
      starting from `collected == -1`, a result replaces the winner only when
      it collected strictly more. */
  method PickWinner(results: seq<ContestResult>) returns (winner: ContestResult)
    ensures (forall k :: 0 <= k < |results| ==> results[k].collected <= -1) ==> winner.collected == -1
    ensures (exists k :: 0 <= k < |results| && results[k].collected > -1) ==>
      exists w :: IsFirstMax(Collected(results), w) && winner == results[w]
  {
    winner := ContestResult("", -1);
    ghost var at := -1;
    var c := Collected(results);
    var j := 0;
    while j < |results|
      invariant 0 <= j <= |results|
      invariant -1 <= at < j
      invariant at == -1 ==> winner.collected == -1 && forall k :: 0 <= k < j ==> c[k] <= -1
      invariant at >= 0 ==> IsFirstMax(c[..j], at) && winner == results[at] && winner.collected > -1
    {
      if results[j].collected > winner.collected {
        winner := results[j];
        at := j;
      }
      j := j + 1;
    }
    assert c[..j] == c;
  }

  /** The egg count of the winner does not depend on the order in which the
      judge reads the results, only which of several equal results wins does. */
  lemma WinningCountOrderIndependent(a: seq<ContestResult>, b: seq<ContestResult>, i: int, j: int)
    requires multiset(Collected(a)) == multiset(Collected(b))
    requires IsFirstMax(Collected(a), i) && IsFirstMax(Collected(b), j)
    ensures a[i].collected == b[j].collected
  {
    var ca, cb := Collected(a), Collected(b);
    assert cb[j] in multiset(cb);
    assert cb[j] in ca;
    assert ca[i] in multiset(ca);
    assert ca[i] in cb;
  }

  /** `startContest` without the processes: nothing happens without live
      records; otherwise the records are routed, each inspector answers with
      its own random draws, and the judge reads the two answers in the order
      the inspectors finish. */
  method StartContest(store: Store, draws: seq<seq<nat>>, finishOrder: seq<int>)
    returns (winner: Option<ContestResult>)
    requires store.Valid()
    requires |draws| == |InspectorAreas| && forall j :: 0 <= j < |draws| ==> |draws[j]| >= |store.Live()|
    requires finishOrder == [0, 1] || finishOrder == [1, 0]
    ensures winner.None? <==> store.Live() == []
    ensures
      var a, b := finishOrder[0], finishOrder[1];
      var r := InspectorResults(RoutedTo(store.Live(), InspectorAreas[a]), draws[a])
             + InspectorResults(RoutedTo(store.Live(), InspectorAreas[b]), draws[b]);
      winner.Some? && (exists k :: 0 <= k < |r| && r[k].collected > -1) ==>
        exists w :: IsFirstMax(Collected(r), w) && winner.value == r[w]
    ensures
      var a, b := finishOrder[0], finishOrder[1];
      var r := InspectorResults(RoutedTo(store.Live(), InspectorAreas[a]), draws[a])
             + InspectorResults(RoutedTo(store.Live(), InspectorAreas[b]), draws[b]);
      winner.Some? && (forall k :: 0 <= k < |r| ==> r[k].collected <= -1) ==> winner.value.collected == -1
    ensures
      var a, b := finishOrder[0], finishOrder[1];
      winner.Some? && RoutedTo(store.Live(), InspectorAreas[a]) == [] && RoutedTo(store.Live(), InspectorAreas[b]) == [] ==>
        winner.value.collected == -1
    ensures winner.Some? && (forall k :: 0 <= k < |store.Live()| ==> store.Live()[k].area in ValidAreas) ==>
      && 1 <= winner.value.collected <= 100
      && exists k :: 0 <= k < |store.Live()| && store.Live()[k].name == winner.value.name
  {
    if store.EntryCount() <= 0 {
      return None;
    }
    var sent, contestantCount := Route(store);
    var live := store.Live();
    var a, b := finishOrder[0], finishOrder[1];
    var received := InspectorResults(sent[a], draws[a]) + InspectorResults(sent[b], draws[b]);
    var w := PickWinner(received);
    winner := Some(w);
    if forall k :: 0 <= k < |live| ==> live[k].area in ValidAreas {
      RoutingCoversValid(live);
      RoutedNames(live, InspectorAreas[a]);
      RoutedNames(live, InspectorAreas[b]);
      ResultsFromLive(live, sent[a], sent[b], draws[a], draws[b]);
      assert received[0].collected > -1;
    }
  }

  /** The results the judge reads from two inspectors that were sent live
      records name live records and count 1 to 100 eggs. */
  lemma ResultsFromLive(live: seq<Person>, pa: seq<Person>, pb: seq<Person>, da: seq<nat>, db: seq<nat>)
    requires |da| >= |pa| && |db| >= |pb|
    requires forall m :: 0 <= m < |pa| ==> pa[m] in live
    requires forall m :: 0 <= m < |pb| ==> pb[m] in live
    ensures var r := InspectorResults(pa, da) + InspectorResults(pb, db);
      forall m :: 0 <= m < |r| ==>
        1 <= r[m].collected <= 100 && exists k :: 0 <= k < |live| && live[k].name == r[m].name
  {
    var ra, rb := InspectorResults(pa, da), InspectorResults(pb, db);
    var r := ra + rb;
    forall m | 0 <= m < |r|
      ensures 1 <= r[m].collected <= 100 && exists k :: 0 <= k < |live| && live[k].name == r[m].name
    {
      if m < |ra| {
        var k :| 0 <= k < |live| && live[k] == pa[m];
        assert live[k].name == r[m].name;
      } else {
        var k :| 0 <= k < |live| && live[k] == pb[m - |ra|];
        assert live[k].name == r[m].name;
      }
    }
  }

  /** Every record an inspector receives is a live record. */
  lemma {:induction false} RoutedNames(live: seq<Person>, areas: seq<string>)
    ensures forall m :: 0 <= m < |RoutedTo(live, areas)| ==> RoutedTo(live, areas)[m] in live
  {
    if live != [] {
      var init := live[..|live| - 1];
      RoutedNames(init, areas);
      var r := RoutedTo(live, areas);
      assert r == RoutedTo(init, areas)
        + (if live[|live| - 1].area in areas then [live[|live| - 1]] else []);
      forall m | 0 <= m < |r|
        ensures r[m] in live
      {
        if m < |RoutedTo(init, areas)| {
          assert r[m] in init;
          assert live == init + [live[|live| - 1]];
        } else {
          assert live[|live| - 1] == r[m];
        }
      }
    } else {
      assert RoutedTo(live, areas) == [];
    }
  }
}
