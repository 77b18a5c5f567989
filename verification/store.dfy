/**
 * The global record list of handin/main.c: an array of nullable record
 * pointers `iterator` with `count` slots in use, `freed` of them NULL
 * tombstones, and capacity `size`. Deletion leaves tombstones; once at least
 * `MANAGE_LIMIT` of them have piled up the list is compacted and shrunk.
 */
module RecordStore {
  import opened Common
  import opened Records

  const InitSize: int := 10
  const GrowBy: int := 5
  const ManageLimit: int := 5

  class Store {
    var slots: array<Option<Person>>
    var count: int
    var freed: int
    var size: int

    /** The capacity is the array's length, there is always a free slot after
        the used ones, and `freed` counts the tombstones among the used ones. */
    ghost predicate Valid()
      reads this, slots
    {
      && size == slots.Length
      && 0 <= count < size
      && freed == NullCount(slots[..count])
    }

    /** The records the list holds, in slot order. */
    ghost function Live(): seq<Person>
      reads this, slots
      requires Valid()
    {
      LiveOf(slots[..count])
    }

    /** The initial `growIterator(INIT_SIZE)` on the zeroed global list. */
    constructor ()
      ensures Valid() && fresh(slots)
      ensures size == InitSize && count == 0 && freed == 0
      ensures Live() == []
    {
      slots := new Option<Person>[InitSize](_ => None);
      size := InitSize;
      count := 0;
      freed := 0;
    }

    /** `getEntryCount`: the number of live records. */
    function EntryCount(): (n: int)
      reads this, slots
      requires Valid()
      ensures n == |Live()|
    {
      LiveLength(slots[..count]);
      count - freed
    }

    /** `growIterator(newSize)`: `realloc` to `newSize` slots, keeping the
        slots both sizes share; the slots it adds start out NULL. */
    method GrowTo(newSize: int)
      requires 0 <= newSize
      modifies this
      ensures fresh(slots) && slots.Length == newSize && size == newSize
      ensures count == old(count) && freed == old(freed)
      ensures forall i :: 0 <= i < newSize && i < old(slots.Length) ==> slots[i] == old(slots[i])
      ensures forall i :: old(slots.Length) <= i < newSize ==> slots[i].None?
    {
      var kept := slots[..];
      slots := new Option<Person>[newSize](i requires 0 <= i => if i < |kept| then kept[i] else None);
      size := newSize;
    }

    /** `appendRecord`: store the record after the used slots, then grow by
        `GROW_BY` once no free slot is left. */
    method Append(p: Person)
      requires Valid()
      modifies this, slots
      ensures Valid()
      ensures count == old(count) + 1 && freed == old(freed)
      ensures slots[old(count)] == Some(p)
      ensures forall i :: 0 <= i < old(count) ==> slots[i] == old(slots[i])
      ensures size == if old(count) + 1 == old(size) then old(size) + GrowBy else old(size)
      ensures Live() == old(Live()) + [p]
    {
      ghost var before := slots[..count];
      slots[count] := Some(p);
      count := count + 1;
      if count >= size {
        GrowTo(size + GrowBy);
      }
      assert slots[..count] == before + [Some(p)];
      LiveOfAppend(before, [Some(p)]);
      LiveOfSingle(Some(p));
    }

    /** `addItem` after its prompts: the record is appended exactly when the
        name is 1 to 127 characters long and not yet used, the area is one of
        the seven, and the application count is 1 to 5 digits with a positive
        value; otherwise (the user gave up re-entering) the list is unchanged.
        A list whose names are distinct keeps them distinct. */
    method AddItem(name: string, area: string, countText: string) returns (added: bool)
      requires Valid()
      modifies this, slots
      ensures Valid()
      ensures added <==>
        && LengthChecker(name, 1, MaxText) && NameIsFree(old(Live()), name)
        && area in ValidAreas
        && DigitsOk(countText, 1, MaxCountDigits)
      ensures added ==>
        && AllDigits(countText)
        && Live() == old(Live()) + [Person(name, area, DecimalValue(countText))]
        && count == old(count) + 1 && freed == old(freed)
        && slots[old(count)] == Some(Person(name, area, DecimalValue(countText)))
        && size == (if old(count) + 1 == old(size) then old(size) + GrowBy else old(size))
      ensures !added ==>
        && slots == old(slots) && slots[..] == old(slots[..])
        && count == old(count) && freed == old(freed) && size == old(size)
      ensures added && old(DistinctNames(Live())) ==> DistinctNames(Live())
    {
      var nameOk := NameAccepted(name, 1, MaxText);
      if !nameOk {
        return false;
      }
      var areaOk := AreaAccepted(area);
      if !areaOk {
        return false;
      }
      var countOk := DigitsAccepted(countText, 1, MaxCountDigits);
      if !countOk {
        return false;
      }
      Append(Person(name, area, DecimalValue(countText)));
      return true;
    }

    /** `lengthAndAlreadyExistsChecker` with `args = {minLen, maxLen}`: the
        length bounds hold and no live record already has this name. */
    method NameAccepted(input: string, minLen: int, maxLen: int) returns (ok: bool)
      requires Valid()
      ensures ok <==> LengthChecker(input, minLen, maxLen) && NameIsFree(Live(), input)
    {
      LiveHasName(slots[..count], input);
      if !LengthChecker(input, minLen, maxLen) {
        return false;
      }
      var i := 0;
      while i < count
        invariant 0 <= i <= count
        invariant forall j :: 0 <= j < i ==> !Named(slots[j], input)
      {
        if slots[i].Some? && input == slots[i].value.name {
          assert Named(slots[..count][i], input);
          return false;
        }
        i := i + 1;
      }
      assert forall j :: 0 <= j < count ==> slots[..count][j] == slots[j];
      return true;
    }

    /** The deletion loop of `removeItem`: free every live record named
        `name`, counting each in `freed` and in the result. */
    method Tombstone(name: string) returns (dropped: int)
      requires Valid()
      modifies slots, this`freed
      ensures Valid()
      ensures count == old(count) && size == old(size)
      ensures forall i :: 0 <= i < count ==> slots[i] == Tomb(old(slots[i]), name)
      ensures Live() == WithoutName(old(Live()), name)
      ensures dropped == |old(Live())| - |Live()|
      ensures freed == old(freed) + dropped
    {
      ghost var s0 := slots[..count];
      dropped := 0;
      var i := 0;
      while i < count
        invariant 0 <= i <= count
        invariant forall j :: 0 <= j < i ==> slots[j] == Tomb(s0[j], name)
        invariant forall j :: i <= j < count ==> slots[j] == s0[j]
        invariant freed == NullCount(slots[..count])
        invariant freed == old(freed) + dropped
      {
        if slots[i].Some? && name == slots[i].value.name {
          ghost var before := slots[..count];
          slots[i] := None;
          freed := freed + 1;
          dropped := dropped + 1;
          assert slots[..count] == before[i := None];
          FreeLiveSlot(before, i);
        }
        i := i + 1;
      }
      assert slots[..count] == TombAll(s0, name);
      TombAllLive(s0, name);
    }

    /** The nested loops of `manageAllocatedSpace`: each NULL slot is filled
        with the next live record after it, whose slot becomes NULL. Returns
        where the live records end; from there on every used slot is NULL. */
    method MoveLiveToFront() returns (emptyPos: int)
      requires Valid()
      modifies slots
      ensures 0 <= emptyPos <= count
      ensures forall j :: 0 <= j < emptyPos ==> slots[j].Some?
      ensures forall j :: emptyPos <= j < count ==> slots[j].None?
      ensures LiveOf(slots[..count]) == old(Live())
    {
      ghost var live0 := LiveOf(slots[..count]);
      emptyPos := 0;
      while emptyPos < count
        invariant 0 <= emptyPos <= count
        invariant forall j :: 0 <= j < emptyPos ==> slots[j].Some?
        invariant LiveOf(slots[..count]) == live0
        decreases 2 * (count - emptyPos) + (if emptyPos < count && slots[emptyPos].None? then 1 else 0)
      {
        if slots[emptyPos].None? {
          var nonEmptyPos := emptyPos + 1;
          // `count < size`, so reading the slot at `count` stays inside the array
          while slots[nonEmptyPos].None? && nonEmptyPos < count
            invariant emptyPos < nonEmptyPos <= count
            invariant forall j :: emptyPos <= j < nonEmptyPos ==> slots[j].None?
          {
            nonEmptyPos := nonEmptyPos + 1;
          }
          if nonEmptyPos >= count {
            break;  // every used slot from emptyPos on is NULL
          }
          ghost var before := slots[..count];
          slots[emptyPos] := slots[nonEmptyPos];
          slots[nonEmptyPos] := None;
          assert slots[..count] == before[emptyPos := before[nonEmptyPos]][nonEmptyPos := None];
          MoveKeepsLive(before, emptyPos, nonEmptyPos);
        } else {
          emptyPos := emptyPos + 1;
        }
      }
    }

    /** `manageAllocatedSpace`: once at least `MANAGE_LIMIT` slots are freed,
        move the live records to the front in their order, then shrink the
        array to `size - freed + 1` and forget the tombstones. */
    method Compact()
      requires Valid()
      modifies this, slots
      ensures Valid()
      ensures Live() == old(Live())
      ensures old(freed) < ManageLimit ==>
        && slots == old(slots) && slots[..] == old(slots[..])
        && count == old(count) && freed == old(freed) && size == old(size)
      ensures old(freed) >= ManageLimit ==>
        && count == old(count) - old(freed) && freed == 0
        && size == old(size) - old(freed) + 1
        && forall i :: 0 <= i < count ==> slots[i].Some?
    {
      if freed >= ManageLimit {
        LiveLength(slots[..count]);
        var emptyPos := MoveLiveToFront();
        FrontLive(slots[..count], emptyPos);
        ghost var front := slots[..emptyPos];
        assert slots[..count][..emptyPos] == front;
        assert emptyPos == count - freed;
        GrowTo(size - freed + 1);
        count := count - freed;
        freed := 0;
        assert slots[..count] == front;
      }
    }

    /** `removeItem`: a name the prompt refuses (empty or too long) deletes
        nothing; otherwise every record with that name is freed and, if any
        was, the list is compacted. */
    method Remove(name: string) returns (dropped: int)
      requires Valid()
      modifies this, slots
      ensures Valid()
      ensures Live() == if LengthChecker(name, 1, MaxText) then WithoutName(old(Live()), name)
                        else old(Live())
      ensures LengthChecker(name, 1, MaxText) ==> NameIsFree(Live(), name)
      ensures dropped == |old(Live())| - |Live()|
      ensures !LengthChecker(name, 1, MaxText) ==>
        && slots == old(slots) && slots[..] == old(slots[..])
        && count == old(count) && freed == old(freed) && size == old(size)
      ensures LengthChecker(name, 1, MaxText) ==>
        if dropped > 0 && old(freed) + dropped >= ManageLimit
        then count == old(count) - old(freed) - dropped && freed == 0
             && size == old(size) - old(freed) - dropped + 1
        else count == old(count) && freed == old(freed) + dropped && size == old(size)
      ensures dropped > 0 ==> freed < ManageLimit
      ensures LengthChecker(name, 1, MaxText) && !(dropped > 0 && old(freed) + dropped >= ManageLimit) ==>
        forall i :: 0 <= i < count ==> slots[i] == Tomb(old(slots[i]), name)
      ensures LengthChecker(name, 1, MaxText) && dropped > 0 && old(freed) + dropped >= ManageLimit ==>
        |Live()| == count && forall i :: 0 <= i < count ==> slots[i] == Some(Live()[i])
    {
      if !LengthChecker(name, 1, MaxText) {
        return 0;
      }
      WithoutNameDropsExactly(Live(), name);
      dropped := Tombstone(name);
      if dropped > 0 {
        Compact();
        if freed == 0 && count < old(count) {
          LiveOfAllLive(slots[..count]);
        }
      }
    }

    /** `removeAllRecord`: free every live record, then compact if any was. */
    method RemoveAll()
      requires Valid()
      modifies this, slots
      ensures Valid()
      ensures Live() == [] && EntryCount() == 0
      ensures if old(Live()) != [] && old(count) >= ManageLimit
              then count == 0 && freed == 0 && size == old(size) - old(count) + 1
              else count == old(count) && freed == count && size == old(size)
    {
      ghost var s0 := slots[..count];
      var dropped := 0;
      var i := 0;
      while i < count
        invariant 0 <= i <= count < slots.Length == size
        invariant count == old(count) && size == old(size) && slots == old(slots)
        invariant forall j :: 0 <= j < i ==> slots[j].None?
        invariant forall j :: i <= j < count ==> slots[j] == s0[j]
        invariant freed == NullCount(slots[..count])
        invariant freed == old(freed) + dropped
        invariant dropped == 0 ==> slots[..count] == s0
      {
        if slots[i] != None {
          ghost var before := slots[..count];
          slots[i] := None;
          freed := freed + 1;
          dropped := dropped + 1;
          assert slots[..count] == before[i := None];
          FreeLiveSlot(before, i);
        }
        i := i + 1;
      }
      LiveOfAllNull(slots[..count]);
      LiveLength(s0);
      if dropped > 0 {
        Compact();
      }
    }

    /** The search of `changeItem`: the first used slot holding a record
        named `target`, or `count` if there is none. */
    method FindNamed(target: string) returns (k: int)
      requires Valid()
      ensures k == FirstNamed(slots[..count], target)
      ensures k < count ==> Named(slots[k], target)
      ensures forall j :: 0 <= j < k ==> !Named(slots[j], target)
    {
      ghost var s0 := slots[..count];
      k := 0;
      while k < count
        invariant 0 <= k <= count
        invariant forall j :: 0 <= j < k ==> !Named(s0[j], target)
      {
        if slots[k].Some? && target == slots[k].value.name {
          assert Named(s0[k], target);
          return;
        }
        k := k + 1;
      }
    }

    /** The merge step of `changeItem`: find the first live record named
        `target` and overwrite it with the new values, an empty name or area
        keeping the old one and an empty count keeping the old count. Nothing
        changes if `target` is refused by the prompt or not found, or if a new
        value fails its checker (the user gave up re-entering it). The new
        name is checked against every live record, the changed one included. */
    method Change(target: string, newName: string, newArea: string, newCount: string)
      returns (modified: bool)
      requires Valid()
      modifies slots
      ensures Valid()
      ensures modified <==>
        && LengthChecker(target, 1, MaxText)
        && FirstNamed(old(slots[..count]), target) < count
        && LengthChecker(newName, 0, MaxText) && NameIsFree(old(Live()), newName)
        && (newArea == "" || newArea in ValidAreas)
        && DigitsOk(newCount, 0, MaxCountDigits)
      ensures !modified ==> slots[..] == old(slots[..]) && Live() == old(Live())
      ensures modified ==>
        var k := FirstNamed(old(slots[..count]), target);
        var p := old(slots[k].value);
        && slots[..] == old(slots[..])[k := slots[k]]
        && slots[k].Some?
        && slots[k].value.name == (if newName == "" then p.name else newName)
        && slots[k].value.area == (if newArea == "" then p.area else newArea)
        && slots[k].value.applicationCount
           == (if newCount == "" then p.applicationCount else DecimalValue(newCount))
        && old(Live()) == LiveOf(old(slots[..k])) + [p] + LiveOf(old(slots[k + 1..count]))
        && Live() == LiveOf(old(slots[..k])) + [slots[k].value] + LiveOf(old(slots[k + 1..count]))
    {
      if !LengthChecker(target, 1, MaxText) {
        return false;
      }
      var k := FindNamed(target);
      if k == count {
        return false;
      }
      var nameOk := NameAccepted(newName, 0, MaxText);
      if !nameOk {
        return false;
      }
      var areaOk := AreaOrEmptyAccepted(newArea);
      if !areaOk {
        return false;
      }
      var countOk := DigitsAccepted(newCount, 0, MaxCountDigits);
      if !countOk {
        return false;
      }
      var p := slots[k].value;
      var name := if |newName| != 0 then newName else p.name;
      var area := if |newArea| != 0 then newArea else p.area;
      var appCount := if |newCount| == 0 then p.applicationCount else DecimalValue(newCount);
      ghost var s0 := slots[..count];
      slots[k] := Some(Person(name, area, appCount));
      assert slots[..count] == s0[k := Some(Person(name, area, appCount))];
      ReplaceLiveSlot(s0, k, Person(name, area, appCount));
      assert s0[..k] == old(slots[..k]) && s0[k + 1..] == old(slots[k + 1..count]);
      return true;
    }
  }
}
