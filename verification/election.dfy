/**
 * The data flow of the election in practice/main.c, without the processes
 * that carry it: the president generates the voters into a growable batch,
 * the first child marks each voter valid or invalid, the second child
 * counts the valid ones and casts one vote per valid voter, and the
 * president tallies the votes per party and names the winner.
 */
module Election {
  import opened Common

  /** `PARTY_COUNT`. */
  const PartyCount: int := 6
  /** The capacity `batchInit` starts with. */
  const InitCap: int := 10
  /** The range voter ids are drawn from. */
  const MinId: int := 10000
  const MaxId: int := 99999

  /** `t_data`: `votedFor` is -1 until a vote is recorded (the program never
      records one), `isValid` is the C truth value of the check. */
  datatype Voter = Voter(id: int, votedFor: int, isValid: int)
  /** `t_stats`. */
  datatype Stats = Stats(validVotes: int, invalidVotes: int)
  /** `t_vote`: the voter's id and the party it voted for. */
  datatype Vote = Vote(id: int, party: int)

  // ---------------------------------------------------------------------------
  // t_batch
  // ---------------------------------------------------------------------------

  /** `t_batch`: a vector of voters that doubles its capacity when full. */
  class Batch {
    var items: array?<Voter>
    var size: int
    var cap: int

    /** A live batch: its buffer has `cap` slots of which the first `size` are used. */
    ghost predicate Valid()
      reads this
    {
      items != null && items.Length == cap && 0 <= size <= cap && 0 < cap
    }

    /** The state `batchDestroy` leaves behind. */
    ghost predicate Destroyed()
      reads this
    {
      items == null && size == 0 && cap == 0
    }

    ghost function Contents(): seq<Voter>
      reads this, items
      requires Valid()
    {
      items[..size]
    }

    /** `batchInit`. */
    constructor Init()
      ensures Valid() && fresh(items)
      ensures size == 0 && cap == InitCap && Contents() == []
    {
      size := 0;
      cap := InitCap;
      items := new Voter[InitCap](_ => Voter(0, 0, 0));
    }

    /** `batchAdd`: a full buffer is reallocated with twice the capacity, then
        the item is stored after the used ones. */
    method Add(d: Voter)
      requires Valid()
      modifies this, items
      ensures Valid()
      ensures Contents() == old(Contents()) + [d]
      ensures size == old(size) + 1
      ensures cap == if old(size) == old(cap) then 2 * old(cap) else old(cap)
      ensures old(size) < old(cap) ==> items == old(items)
      ensures old(size) == old(cap) ==> fresh(items)
    {
      if size == cap {
        var kept := items[..];
        items := new Voter[cap * 2](i requires 0 <= i => if i < |kept| then kept[i] else Voter(0, 0, 0));
        cap := cap * 2;
        assert items[..size] == kept[..size];
      }
      items[size] := d;
      size := size + 1;
    }

    /** `batchDestroy`. */
    method Destroy()
      modifies this
      ensures Destroyed()
    {
      size := 0;
      cap := 0;
      items := null;
    }
  }

  // ---------------------------------------------------------------------------
  // Generating the voters
  // ---------------------------------------------------------------------------

  function Max0(n: int): nat
  {
    if n > 0 then n else 0
  }

  /** The voters the president generates from `count` and the `rand()` values
      drawn for their ids. Ids may repeat. */
  function Generated(count: int, idDraws: seq<nat>): (voters: seq<Voter>)
    requires |idDraws| >= count
    ensures |voters| == Max0(count)
    ensures forall i :: 0 <= i < |voters| ==>
      && MinId <= voters[i].id <= MaxId
      && voters[i].votedFor == -1 && voters[i].isValid == 0
  {
    seq(Max0(count), i requires 0 <= i < Max0(count) => Voter(RandomBetween(MinId, MaxId, idDraws[i]), -1, 0))
  }

  /** The president's generation loop: `batchInit`, then one `batchAdd` per voter. */
  method GenerateVoters(count: int, idDraws: seq<nat>) returns (batch: Batch)
    requires |idDraws| >= count
    ensures fresh(batch) && batch.Valid() && fresh(batch.items)
    ensures batch.Contents() == Generated(count, idDraws)
  {
    batch := new Batch.Init();
    var i := 0;
    while i < count
      invariant 0 <= i <= Max0(count)
      invariant fresh(batch) && batch.Valid() && fresh(batch.items)
      invariant batch.Contents() == Generated(i, idDraws)
    {
      batch.Add(Voter(RandomBetween(MinId, MaxId, idDraws[i]), -1, 0));
      i := i + 1;
    }
  }

  // ---------------------------------------------------------------------------
  // Validation (first child)
  // ---------------------------------------------------------------------------

  /** A voter is found valid when `randomBetween(1, 100) > 20`, that is when
      the draw's last two decimal digits are at least 20. */
  function ValidityOf(draw: nat): (flag: int)
    ensures flag == 0 || flag == 1
    ensures flag == 1 <==> draw % 100 >= 20
  {
    if RandomBetween(1, 100, draw) > 20 then 1 else 0
  }

  /** How many of the draws `start, start + 1, ..., start + n - 1` mark a voter valid. */
  function ValidDraws(start: nat, n: nat): nat
  {
    if n == 0 then 0
    else ValidDraws(start, n - 1) + (if ValidityOf(start + n - 1) == 1 then 1 else 0)
  }

  lemma {:induction false} ValidDrawsSplit(start: nat, m: nat, n: nat)
    ensures ValidDraws(start, m + n) == ValidDraws(start, m) + ValidDraws(start + m, n)
  {
    if n > 0 {
      ValidDrawsSplit(start, m, n - 1);
    }
  }

  /** Draws whose last two digits are all below 20, or all at least 20. */
  lemma {:induction false} ValidDrawsUniform(start: nat, n: nat, valid: bool)
    requires forall d :: start <= d < start + n ==> (d % 100 >= 20 <==> valid)
    ensures ValidDraws(start, n) == if valid then n else 0
  {
    if n > 0 {
      ValidDrawsUniform(start, n - 1, valid);
    }
  }

  /** Moving the window of 100 draws by one keeps the count: the draw that
      leaves and the draw that enters share their last two digits. */
  lemma ValidDrawsSlide(start: nat)
    ensures ValidDraws(start + 1, 100) == ValidDraws(start, 100)
  {
    ValidDrawsSplit(start, 1, 100);
    ValidDrawsSplit(start, 100, 1);
    assert (start + 100) % 100 == start % 100;
  }

  /** Inside a window of 100 that starts at a multiple of 100, the last two
      digits of a draw are its offset in the window. */
  lemma OffsetInAlignedWindow(start: nat, d: nat)
    requires start % 100 == 0 && start <= d < start + 100
    ensures d % 100 == d - start
  {
    var q := start / 100;
    assert start == 100 * q;
    assert d == 100 * q + (d - start);
  }

  lemma AlignedHundred(start: nat)
    requires start % 100 == 0
    ensures ValidDraws(start, 100) == 80
  {
    ValidDrawsSplit(start, 20, 80);
    forall d | start <= d < start + 20 ensures d % 100 < 20 {
      OffsetInAlignedWindow(start, d);
    }
    ValidDrawsUniform(start, 20, false);
    forall d | start + 20 <= d < start + 100 ensures d % 100 >= 20 {
      OffsetInAlignedWindow(start, d);
    }
    ValidDrawsUniform(start + 20, 80, true);
  }

  /** Of any 100 consecutive draw values exactly 80 mark a voter valid: the 80 %
      validity rate of `randomBetween(1, 100) > 20`. */
  lemma {:induction false} EightyOfEveryHundred(start: nat)
    ensures ValidDraws(start, 100) == 80
  {
    if start % 100 == 0 {
      AlignedHundred(start);
    } else {
      EightyOfEveryHundred(start - 1);
      ValidDrawsSlide(start - 1);
    }
  }

  /** The batch after validation: only the validity flags change, each to 0 or 1. */
  function Marked(voters: seq<Voter>, draws: seq<nat>): (marked: seq<Voter>)
    requires |draws| >= |voters|
    ensures |marked| == |voters|
    ensures forall i :: 0 <= i < |voters| ==>
      && marked[i].id == voters[i].id && marked[i].votedFor == voters[i].votedFor
      && (marked[i].isValid == 0 || marked[i].isValid == 1)
  {
    seq(|voters|, i requires 0 <= i < |voters| => voters[i].(isValid := ValidityOf(draws[i])))
  }

  /** The first child's validation loop over its copy of the batch. */
  method MarkValidity(voters: array<Voter>, draws: seq<nat>)
    requires |draws| >= voters.Length
    modifies voters
    ensures voters[..] == Marked(old(voters[..]), draws)
  {
    var i := 0;
    while i < voters.Length
      invariant 0 <= i <= voters.Length
      invariant forall j :: 0 <= j < i ==> voters[j] == old(voters[j]).(isValid := ValidityOf(draws[j]))
      invariant forall j :: i <= j < voters.Length ==> voters[j] == old(voters[j])
    {
      voters[i] := voters[i].(isValid := ValidityOf(draws[i]));
      i := i + 1;
    }
  }

  // ---------------------------------------------------------------------------
  // Counting and casting (second child)
  // ---------------------------------------------------------------------------

  /** The valid voters, in batch order (`if (is_valid)` tests for non-zero). */
  function ValidVoters(voters: seq<Voter>): seq<Voter>
  {
    if voters == [] then []
    else ValidVoters(voters[..|voters| - 1])
         + (if voters[|voters| - 1].isValid != 0 then [voters[|voters| - 1]] else [])
  }

  /** `valid_votes += is_valid` over the batch. */
  function SumValid(voters: seq<Voter>): int
  {
    if voters == [] then 0 else SumValid(voters[..|voters| - 1]) + voters[|voters| - 1].isValid
  }

  predicate Flags01(voters: seq<Voter>)
  {
    forall i :: 0 <= i < |voters| ==> voters[i].isValid == 0 || voters[i].isValid == 1
  }

  /** Once every flag is 0 or 1, summing the flags counts the valid voters. */
  lemma {:induction false} SumValidCounts(voters: seq<Voter>)
    requires Flags01(voters)
    ensures SumValid(voters) == |ValidVoters(voters)| <= |voters|
  {
    if voters != [] {
      SumValidCounts(voters[..|voters| - 1]);
    }
  }

  /** The second child's counting loop: the valid votes are the summed
      flags and the invalid ones the rest of the batch. */
  method Tabulate(voters: array<Voter>) returns (stats: Stats)
    ensures stats.validVotes == SumValid(voters[..])
    ensures stats.validVotes + stats.invalidVotes == voters.Length
    ensures Flags01(voters[..]) ==>
      && stats.validVotes == |ValidVoters(voters[..])|
      && stats.invalidVotes == voters.Length - |ValidVoters(voters[..])| >= 0
  {
    var valid := 0;
    var i := 0;
    while i < voters.Length
      invariant 0 <= i <= voters.Length
      invariant valid == SumValid(voters[..i])
    {
      assert voters[..i + 1][..i] == voters[..i];
      valid := valid + voters[i].isValid;
      i := i + 1;
    }
    assert voters[..] == voters[..i];
    stats := Stats(valid, voters.Length - valid);
    if Flags01(voters[..]) {
      SumValidCounts(voters[..]);
    }
  }

  /** The votes the second child sends: one per valid voter, in batch order,
      for the party `randomBetween(1, PARTY_COUNT)` picks. `partyDraws[i]` is
      the draw used if voter `i` is valid. */
  function CastOf(voters: seq<Voter>, partyDraws: seq<nat>): seq<Vote>
    requires |partyDraws| >= |voters|
  {
    if voters == [] then []
    else
      var n := |voters| - 1;
      CastOf(voters[..n], partyDraws)
      + (if voters[n].isValid != 0 then [Vote(voters[n].id, RandomBetween(1, PartyCount, partyDraws[n]))] else [])
  }

  /** Exactly one vote per valid voter, in batch order, none for an invalid
      voter, and every vote names a party in `1..PARTY_COUNT`. */
  lemma {:induction false} CastMatchesValid(voters: seq<Voter>, partyDraws: seq<nat>)
    requires |partyDraws| >= |voters|
    ensures |CastOf(voters, partyDraws)| == |ValidVoters(voters)|
    ensures forall k :: 0 <= k < |ValidVoters(voters)| ==>
      && CastOf(voters, partyDraws)[k].id == ValidVoters(voters)[k].id
      && 1 <= CastOf(voters, partyDraws)[k].party <= PartyCount
  {
    if voters != [] {
      CastMatchesValid(voters[..|voters| - 1], partyDraws);
    }
  }

  /** The second child's voting loop. */
  method CastVotes(voters: array<Voter>, partyDraws: seq<nat>) returns (votes: seq<Vote>)
    requires |partyDraws| >= voters.Length
    ensures votes == CastOf(voters[..], partyDraws)
  {
    votes := [];
    var i := 0;
    while i < voters.Length
      invariant 0 <= i <= voters.Length
      invariant votes == CastOf(voters[..i], partyDraws)
    {
      assert voters[..i + 1][..i] == voters[..i];
      if voters[i].isValid != 0 {
        votes := votes + [Vote(voters[i].id, RandomBetween(1, PartyCount, partyDraws[i]))];
      }
      i := i + 1;
    }
    assert voters[..] == voters[..i];
  }

  // ---------------------------------------------------------------------------
  // Tally and winner (president)
  // ---------------------------------------------------------------------------

  /** The number of votes for `party`. */
  function CountParty(votes: seq<Vote>, party: int): nat
  {
    if votes == [] then 0
    else CountParty(votes[..|votes| - 1], party) + (if votes[|votes| - 1].party == party then 1 else 0)
  }

  function Sum(s: seq<int>): int
  {
    if s == [] then 0 else Sum(s[..|s| - 1]) + s[|s| - 1]
  }

  lemma {:induction false} SumZeros(s: seq<int>)
    requires forall k :: 0 <= k < |s| ==> s[k] == 0
    ensures Sum(s) == 0
  {
    if s != [] {
      SumZeros(s[..|s| - 1]);
    }
  }

  /** Adding one to an entry adds one to the sum. */
  lemma {:induction false} SumIncrement(s: seq<int>, i: int)
    requires 0 <= i < |s|
    ensures Sum(s[i := s[i] + 1]) == Sum(s) + 1
  {
    var t := s[i := s[i] + 1];
    var n := |s| - 1;
    assert t[..n] == if i < n then s[..n][i := s[i] + 1] else s[..n];
    if i < n {
      SumIncrement(s[..n], i);
    }
  }

  /** The president's tally loop: it reads exactly `validVotes` votes and
      counts each for its party. */
  method Tally(votes: seq<Vote>, validVotes: int) returns (results: seq<int>)
    requires 0 <= validVotes <= |votes|
    requires forall k :: 0 <= k < validVotes ==> 1 <= votes[k].party <= PartyCount
    ensures |results| == PartyCount
    ensures forall p :: 0 <= p < PartyCount ==> results[p] == CountParty(votes[..validVotes], p + 1)
    ensures Sum(results) == validVotes
  {
    results := [0, 0, 0, 0, 0, 0];
    SumZeros(results);
    var voted := 0;
    while voted < validVotes
      invariant 0 <= voted <= validVotes
      invariant |results| == PartyCount
      invariant forall p :: 0 <= p < PartyCount ==> results[p] == CountParty(votes[..voted], p + 1)
      invariant Sum(results) == voted
    {
      var vote := votes[voted];
      assert votes[..voted + 1][..voted] == votes[..voted];
      SumIncrement(results, vote.party - 1);
      results := results[vote.party - 1 := results[vote.party - 1] + 1];
      voted := voted + 1;
    }
  }

  /** The president's winner loop: starting from -1 votes, a party replaces
      the winner only when it has strictly more votes, so the first party
      with the most votes wins. */
  method PickWinnerParty(results: seq<int>) returns (winnerParty: int, winnerVotes: int)
    requires |results| == PartyCount
    ensures (forall p :: 0 <= p < PartyCount ==> results[p] <= -1) ==>
      winnerParty == -1 && winnerVotes == -1
    ensures (exists p :: 0 <= p < PartyCount && results[p] > -1) ==>
      && 1 <= winnerParty <= PartyCount
      && IsFirstMax(results, winnerParty - 1)
      && winnerVotes == results[winnerParty - 1]
  {
    winnerVotes, winnerParty := -1, -1;
    var i := 0;
    while i < PartyCount
      invariant 0 <= i <= PartyCount
      invariant winnerParty == -1 ==> winnerVotes == -1 && forall k :: 0 <= k < i ==> results[k] <= -1
      invariant winnerParty != -1 ==>
        && 1 <= winnerParty <= i
        && IsFirstMax(results[..i], winnerParty - 1)
        && winnerVotes == results[winnerParty - 1] > -1
    {
      if results[i] > winnerVotes {
        winnerVotes := results[i];
        winnerParty := i + 1;
      }
      i := i + 1;
    }
    assert results[..i] == results;
  }

  /** Totals `[3, 5, 5, 2, 0, 1]` make party 2 the winner, not party 3. */
  lemma ExampleWinner(at: int)
    requires IsFirstMax([3, 5, 5, 2, 0, 1], at)
    ensures at + 1 == 2
  {
    var s := [3, 5, 5, 2, 0, 1];
    assert IsFirstMax(s, 1);
    FirstMaxUnique(s, at, 1);
  }

  // ---------------------------------------------------------------------------
  // The whole data flow
  // ---------------------------------------------------------------------------

  /** The stages after validation: the second child counts and casts, the
      president tallies and picks the winner. */
  method CountCastTally(voters: array<Voter>, partyDraws: seq<nat>)
    returns (stats: Stats, results: seq<int>, winnerParty: int, winnerVotes: int)
    requires Flags01(voters[..]) && |partyDraws| >= voters.Length
    ensures stats.validVotes == |ValidVoters(voters[..])|
    ensures stats.validVotes + stats.invalidVotes == voters.Length
    ensures |results| == PartyCount
    ensures forall p :: 0 <= p < PartyCount ==> results[p] == CountParty(CastOf(voters[..], partyDraws), p + 1)
    ensures Sum(results) == stats.validVotes
    ensures 1 <= winnerParty <= PartyCount
    ensures IsFirstMax(results, winnerParty - 1) && winnerVotes == results[winnerParty - 1]
  {
    stats := Tabulate(voters);
    var votes := CastVotes(voters, partyDraws);
    CastMatchesValid(voters[..], partyDraws);
    assert votes[..stats.validVotes] == votes;
    results := Tally(votes, stats.validVotes);
    winnerParty, winnerVotes := PickWinnerParty(results);
    assert results[0] >= 0;
  }

  /** The election's data flow in the order the processes run it: generate
      the batch, copy it to the first child, mark validity, copy the marked
      batch to the second child, count, cast, tally and pick the winner. */
  method RunElection(count: int, idDraws: seq<nat>, validityDraws: seq<nat>, partyDraws: seq<nat>)
    returns (stats: Stats, results: seq<int>, winnerParty: int, winnerVotes: int)
    requires |idDraws| >= count && |validityDraws| >= count && |partyDraws| >= count
    ensures
      var marked := Marked(Generated(count, idDraws), validityDraws);
      && stats.validVotes == |ValidVoters(marked)|
      && stats.validVotes + stats.invalidVotes == Max0(count)
      && |results| == PartyCount
      && (forall p :: 0 <= p < PartyCount ==> results[p] == CountParty(CastOf(marked, partyDraws), p + 1))
      && Sum(results) == stats.validVotes
      && 1 <= winnerParty <= PartyCount
      && IsFirstMax(results, winnerParty - 1) && winnerVotes == results[winnerParty - 1]
  {
    var voterData := GenerateVoters(count, idDraws);
    ghost var generated := Generated(count, idDraws);
    // the first child's copy, read from its pipe
    var toChild1 := voterData.items[..voterData.size];
    var child1 := new Voter[|toChild1|](i requires 0 <= i < |toChild1| => toChild1[i]);
    assert child1[..] == generated;
    MarkValidity(child1, validityDraws);
    ghost var marked := child1[..];
    // the second child's copy, read from the pipe between the children
    var toChild2 := child1[..];
    var child2 := new Voter[|toChild2|](i requires 0 <= i < |toChild2| => toChild2[i]);
    assert child2[..] == marked;
    stats, results, winnerParty, winnerVotes := CountCastTally(child2, partyDraws);
    voterData.Destroy();
  }
}
