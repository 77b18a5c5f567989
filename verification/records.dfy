/**
 * The record manager's data (handin/main.c): a contestant record, the
 * validators its prompts run on user input, and the view of a slot array
 * with NULL tombstones as the sequence of live records it holds.
 */
module Records {
  import opened Common

  /** `BUFFER_SIZE - 1`: the longest text a prompt keeps. */
  const MaxText: int := 127
  /** The longest application count a prompt accepts (`{1, 5}` and `{0, 5}`). */
  const MaxCountDigits: int := 5

  /** `t_person`: a rabbit's name, its area and its application count (`unsigned`). */
  datatype Person = Person(name: string, area: string, applicationCount: nat)

  /** The seven areas a record may name. */
  const ValidAreas: seq<string> :=
    ["Barátfa", "Lovas", "Szula", "Kígyós-patak", "Malom telek", "Páskom", "Káposztás kert"]

  // ---------------------------------------------------------------------------
  // Validators
  // ---------------------------------------------------------------------------

  /** `lengthChecker` with `args = {minLen, maxLen}`. */
  predicate LengthChecker(input: string, minLen: int, maxLen: int)
  {
    minLen <= |input| <= maxLen
  }

  predicate IsDigit(c: char)
  {
    '0' <= c <= '9'
  }

  predicate AllDigits(s: string)
  {
    forall i :: 0 <= i < |s| ==> IsDigit(s[i])
  }

  /** What `atoi` makes of a text of decimal digits. */
  function DecimalValue(s: string): nat
    requires AllDigits(s)
  {
    if s == [] then 0 else DecimalValue(s[..|s| - 1]) * 10 + (s[|s| - 1] as int - '0' as int)
  }

  /** A non-empty all-digit text has a positive value exactly when one of its
      digits is not '0': leading zeros do not matter, "0" and "000" are zero. */
  lemma {:induction false} DecimalPositiveIffNonZeroDigit(s: string)
    requires AllDigits(s)
    ensures DecimalValue(s) > 0 <==> exists i :: 0 <= i < |s| && s[i] != '0'
  {
    if s != [] {
      var init := s[..|s| - 1];
      assert AllDigits(init);
      DecimalPositiveIffNonZeroDigit(init);
      if exists i :: 0 <= i < |init| && init[i] != '0' {
        var i :| 0 <= i < |init| && init[i] != '0';
        assert s[i] == init[i];
      }
      if exists i :: 0 <= i < |s| && s[i] != '0' {
        var i :| 0 <= i < |s| && s[i] != '0';
        if i < |init| {
          assert init[i] == s[i];
        }
      }
    }
  }

  /** The verdict of `lengthAndOnlyDigitsAndIsPositiveChecker` with
      `args = {minLen, maxLen}`: the length bounds hold, and a non-empty input
      is all digits with a positive `atoi` value. */
  predicate DigitsOk(input: string, minLen: int, maxLen: int)
  {
    && LengthChecker(input, minLen, maxLen)
    && (|input| == 0 || (AllDigits(input) && DecimalValue(input) > 0))
  }

  /** `lengthAndOnlyDigitsAndIsPositiveChecker`. */
  method DigitsAccepted(input: string, minLen: int, maxLen: int) returns (ok: bool)
    ensures ok == DigitsOk(input, minLen, maxLen)
  {
    if !LengthChecker(input, minLen, maxLen) {
      return false;
    }
    if |input| == 0 {
      return true;
    }
    var i := 0;
    while i < |input|
      invariant 0 <= i <= |input|
      invariant forall j :: 0 <= j < i ==> IsDigit(input[j])
    {
      if input[i] < '0' || input[i] > '9' {
        return false;
      }
      i := i + 1;
    }
    ok := DecimalValue(input) > 0;
  }

  /** The application-count checker accepts a non-empty text exactly when it
      fits the bounds, is all digits and is not all zeros; it accepts the empty
      text exactly when the bounds allow length 0. */
  lemma DigitsOkMeaning(input: string, minLen: int, maxLen: int)
    ensures |input| > 0 ==>
      (DigitsOk(input, minLen, maxLen) <==>
         && minLen <= |input| <= maxLen
         && AllDigits(input)
         && exists i :: 0 <= i < |input| && input[i] != '0')
    ensures |input| == 0 ==> (DigitsOk(input, minLen, maxLen) <==> minLen <= 0 <= maxLen)
  {
    if AllDigits(input) {
      DecimalPositiveIffNonZeroDigit(input);
    }
  }

  /** "0" and "000" are refused, "007" is read as 7 and accepted. */
  lemma ZeroCountsRefused()
    ensures !DigitsOk("0", 1, MaxCountDigits) && !DigitsOk("000", 0, MaxCountDigits)
    ensures DigitsOk("007", 1, MaxCountDigits) && DecimalValue("007") == 7
    ensures DigitsOk("", 0, MaxCountDigits) && !DigitsOk("", 1, MaxCountDigits)
  {
    DigitsOkMeaning("0", 1, MaxCountDigits);
    DigitsOkMeaning("000", 0, MaxCountDigits);
    DigitsOkMeaning("007", 1, MaxCountDigits);
  }

  /** `validAreaChecker`: compares the input with each listed area in turn. */
  method AreaAccepted(input: string) returns (ok: bool)
    ensures ok <==> input in ValidAreas
  {
    var i := 0;
    while i < |ValidAreas|
      invariant 0 <= i <= |ValidAreas|
      invariant input !in ValidAreas[..i]
    {
      if input == ValidAreas[i] {
        return true;
      }
      i := i + 1;
    }
    return false;
  }

  /** `validAreaOrEmptyChecker`: the empty text (keep the old area) or a listed area. */
  method AreaOrEmptyAccepted(input: string) returns (ok: bool)
    ensures ok <==> input == "" || input in ValidAreas
  {
    if |input| == 0 {
      return true;
    }
    ok := AreaAccepted(input);
  }

  // ---------------------------------------------------------------------------
  // Slot arrays with tombstones
  // ---------------------------------------------------------------------------

  /** The slot holds a record with this name (`iterator[i] && strcmp(...) == 0`). */
  predicate Named(slot: Option<Person>, name: string)
  {
    slot.Some? && slot.value.name == name
  }

  /** The records of the non-NULL slots, in slot order. */
  function LiveOf(s: seq<Option<Person>>): seq<Person>
  {
    if s == [] then []
    else LiveOf(s[..|s| - 1]) + (if s[|s| - 1].Some? then [s[|s| - 1].value] else [])
  }

  /** The number of NULL slots. */
  function NullCount(s: seq<Option<Person>>): nat
  {
    if s == [] then 0
    else NullCount(s[..|s| - 1]) + (if s[|s| - 1].None? then 1 else 0)
  }

  /** Every slot is live or a tombstone. */
  lemma {:induction false} LiveLength(s: seq<Option<Person>>)
    ensures |LiveOf(s)| + NullCount(s) == |s|
  {
    if s != [] {
      LiveLength(s[..|s| - 1]);
    }
  }

  lemma {:induction false} LiveOfAppend(a: seq<Option<Person>>, b: seq<Option<Person>>)
    ensures LiveOf(a + b) == LiveOf(a) + LiveOf(b)
    ensures NullCount(a + b) == NullCount(a) + NullCount(b)
  {
    if b == [] {
      assert a + b == a;
    } else {
      var b' := b[..|b| - 1];
      assert (a + b)[..|a + b| - 1] == a + b';
      LiveOfAppend(a, b');
    }
  }

  lemma LiveOfSingle(x: Option<Person>)
    ensures LiveOf([x]) == (if x.Some? then [x.value] else [])
    ensures NullCount([x]) == (if x.None? then 1 else 0)
  {
    assert [x][..0] == [];
  }

  lemma {:induction false} LiveOfAllNull(s: seq<Option<Person>>)
    requires forall i :: 0 <= i < |s| ==> s[i].None?
    ensures LiveOf(s) == [] && NullCount(s) == |s|
  {
    if s != [] {
      LiveOfAllNull(s[..|s| - 1]);
    }
  }

  lemma {:induction false} LiveOfAllLive(s: seq<Option<Person>>)
    requires forall i :: 0 <= i < |s| ==> s[i].Some?
    ensures |LiveOf(s)| == |s| && NullCount(s) == 0
    ensures forall i :: 0 <= i < |s| ==> LiveOf(s)[i] == s[i].value
  {
    if s != [] {
      LiveOfAllLive(s[..|s| - 1]);
    }
  }

  /** A slot array whose live slots all come before its tombstones holds its
      live records in that front part, one per slot. */
  lemma FrontLive(s: seq<Option<Person>>, e: int)
    requires 0 <= e <= |s|
    requires forall i :: 0 <= i < e ==> s[i].Some?
    requires forall i :: e <= i < |s| ==> s[i].None?
    ensures LiveOf(s[..e]) == LiveOf(s) && |LiveOf(s)| == e
    ensures NullCount(s[..e]) == 0 && NullCount(s) == |s| - e
  {
    assert s == s[..e] + s[e..];
    LiveOfAllLive(s[..e]);
    LiveOfAllNull(s[e..]);
    LiveOfAppend(s[..e], s[e..]);
  }

  /** Moving the live slot at `to` down to the tombstone at `from`, across
      tombstones only, keeps the live records and their order. */
  lemma MoveKeepsLive(s: seq<Option<Person>>, from: int, to: int)
    requires 0 <= from < to < |s|
    requires forall j :: from <= j < to ==> s[j].None?
    requires s[to].Some?
    ensures LiveOf(s[from := s[to]][to := None]) == LiveOf(s)
  {
    var t := s[from := s[to]][to := None];
    var pre, post, x := s[..from], s[to + 1..], s[to];
    var midS, midT := s[from..to] + [x], [x] + t[from + 1..to + 1];
    assert s == pre + midS + post;
    assert t == pre + midT + post;
    assert LiveOf(midS) == [x.value] by {
      LiveOfAllNull(s[from..to]);
      LiveOfAppend(s[from..to], [x]);
      assert [x][..0] == [];
    }
    assert LiveOf(midT) == [x.value] by {
      LiveOfAllNull(t[from + 1..to + 1]);
      LiveOfAppend([x], t[from + 1..to + 1]);
      assert [x][..0] == [];
    }
    assert LiveOf(pre + midS + post) == LiveOf(pre) + [x.value] + LiveOf(post) by {
      LiveOfAppend(pre, midS);
      LiveOfAppend(pre + midS, post);
    }
    assert LiveOf(pre + midT + post) == LiveOf(pre) + [x.value] + LiveOf(post) by {
      LiveOfAppend(pre, midT);
      LiveOfAppend(pre + midT, post);
    }
  }

  /** Overwriting a live slot with another record replaces that record at its
      place in the live view and keeps the tombstones. */
  lemma ReplaceLiveSlot(s: seq<Option<Person>>, i: int, p: Person)
    requires 0 <= i < |s| && s[i].Some?
    ensures LiveOf(s) == LiveOf(s[..i]) + [s[i].value] + LiveOf(s[i + 1..])
    ensures LiveOf(s[i := Some(p)]) == LiveOf(s[..i]) + [p] + LiveOf(s[i + 1..])
    ensures NullCount(s[i := Some(p)]) == NullCount(s)
  {
    var t := s[i := Some(p)];
    assert s == s[..i] + [s[i]] + s[i + 1..];
    assert t == s[..i] + [Some(p)] + s[i + 1..];
    LiveOfSingle(s[i]);
    LiveOfSingle(Some(p));
    LiveOfAppend(s[..i], [s[i]]);
    LiveOfAppend(s[..i] + [s[i]], s[i + 1..]);
    LiveOfAppend(s[..i], [Some(p)]);
    LiveOfAppend(s[..i] + [Some(p)], s[i + 1..]);
  }

  /** Freeing a live slot drops exactly that record from the live view and
      adds one tombstone. */
  lemma FreeLiveSlot(s: seq<Option<Person>>, i: int)
    requires 0 <= i < |s| && s[i].Some?
    ensures LiveOf(s) == LiveOf(s[..i]) + [s[i].value] + LiveOf(s[i + 1..])
    ensures LiveOf(s[i := None]) == LiveOf(s[..i]) + LiveOf(s[i + 1..])
    ensures NullCount(s[i := None]) == NullCount(s) + 1
  {
    var t := s[i := None];
    assert s == s[..i] + [s[i]] + s[i + 1..];
    assert t == s[..i] + [None] + s[i + 1..];
    LiveOfSingle(s[i]);
    LiveOfSingle(None);
    LiveOfAppend(s[..i], [s[i]]);
    LiveOfAppend(s[..i] + [s[i]], s[i + 1..]);
    LiveOfAppend(s[..i], [None]);
    LiveOfAppend(s[..i] + [None], s[i + 1..]);
  }

  /** A live slot with this name exists exactly when a live record has it. */
  lemma {:induction false} LiveHasName(s: seq<Option<Person>>, name: string)
    ensures (exists j :: 0 <= j < |s| && Named(s[j], name))
        <==> (exists k :: 0 <= k < |LiveOf(s)| && LiveOf(s)[k].name == name)
  {
    if s != [] {
      var init := s[..|s| - 1];
      LiveHasName(init, name);
      var tail := if s[|s| - 1].Some? then [s[|s| - 1].value] else [];
      assert LiveOf(s) == LiveOf(init) + tail;
      if exists j :: 0 <= j < |s| && Named(s[j], name) {
        var j :| 0 <= j < |s| && Named(s[j], name);
        if j < |init| {
          assert Named(init[j], name);
          var k :| 0 <= k < |LiveOf(init)| && LiveOf(init)[k].name == name;
          assert LiveOf(s)[k] == LiveOf(init)[k];
        } else {
          assert LiveOf(s)[|LiveOf(s)| - 1] == s[|s| - 1].value;
        }
      }
      if exists k :: 0 <= k < |LiveOf(s)| && LiveOf(s)[k].name == name {
        var k :| 0 <= k < |LiveOf(s)| && LiveOf(s)[k].name == name;
        if k < |LiveOf(init)| {
          assert LiveOf(init)[k] == LiveOf(s)[k];
          var j :| 0 <= j < |init| && Named(init[j], name);
          assert s[j] == init[j];
        } else {
          assert Named(s[|s| - 1], name);
        }
      }
    }
  }

  /** No live record carries this name. */
  predicate NameIsFree(live: seq<Person>, name: string)
  {
    forall k :: 0 <= k < |live| ==> live[k].name != name
  }

  /** No two live records share a name. */
  predicate DistinctNames(live: seq<Person>)
  {
    forall a, b :: 0 <= a < b < |live| ==> live[a].name != live[b].name
  }

  /** Index of the first live slot with this name, or `|s|` if there is none. */
  function FirstNamed(s: seq<Option<Person>>, name: string): (r: nat)
    ensures r <= |s|
    ensures r < |s| ==> Named(s[r], name)
    ensures forall j :: 0 <= j < r ==> !Named(s[j], name)
  {
    if s == [] then 0
    else if Named(s[0], name) then 0
    else 1 + FirstNamed(s[1..], name)
  }

  /** `removeItem`'s effect on one slot: a live record with this name is freed. */
  function Tomb(slot: Option<Person>, name: string): Option<Person>
  {
    if Named(slot, name) then None else slot
  }

  function TombAll(s: seq<Option<Person>>, name: string): (t: seq<Option<Person>>)
    ensures |t| == |s|
  {
    seq(|s|, i requires 0 <= i < |s| => Tomb(s[i], name))
  }

  /** The live records whose name differs from `name`, in order. */
  function WithoutName(live: seq<Person>, name: string): seq<Person>
  {
    if live == [] then []
    else WithoutName(live[..|live| - 1], name)
         + (if live[|live| - 1].name == name then [] else [live[|live| - 1]])
  }

  /** Freeing the slots named `name` drops exactly the records with that name
      and keeps the others in order; each dropped record becomes one tombstone. */
  lemma {:induction false} TombAllLive(s: seq<Option<Person>>, name: string)
    ensures LiveOf(TombAll(s, name)) == WithoutName(LiveOf(s), name)
    ensures NullCount(TombAll(s, name)) - NullCount(s)
         == |LiveOf(s)| - |WithoutName(LiveOf(s), name)|
  {
    if s != [] {
      var init := s[..|s| - 1];
      TombAllLive(init, name);
      assert TombAll(s, name)[..|s| - 1] == TombAll(init, name);
      var tail := if s[|s| - 1].Some? then [s[|s| - 1].value] else [];
      assert LiveOf(s) == LiveOf(init) + tail;
      if tail == [] {
        assert LiveOf(s) == LiveOf(init);
      } else {
        var live := LiveOf(s);
        assert live[..|live| - 1] == LiveOf(init);
      }
    }
  }

  /** `WithoutName` removes every record with that name and nothing else. */
  lemma {:induction false} WithoutNameDropsExactly(live: seq<Person>, name: string)
    ensures NameIsFree(WithoutName(live, name), name)
    ensures forall p :: p in live && p.name != name ==> p in WithoutName(live, name)
    ensures forall p :: p in WithoutName(live, name) ==> p in live
  {
    if live != [] {
      var init := live[..|live| - 1];
      WithoutNameDropsExactly(init, name);
      assert live == init + [live[|live| - 1]];
    }
  }
}
