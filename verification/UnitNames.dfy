/** Generated names of units, floor by floor, and of numbered blocks. */
module UnitNames {
  import opened Names
  import opened NumberText

  predicate Distinct(names: seq<string>) {
    forall i, j :: 0 <= i < j < |names| ==> ToLower(names[i]) != ToLower(names[j])
  }

  /** Numbers of the units of one floor. */
  function Floor(floor: nat, units: nat): seq<nat> {
    seq(units, n requires 0 <= n < units => floor * 100 + n + 1)
  }

  /** Numbers of the units of consecutive floors. */
  function Floors(start: nat, count: nat, units: nat): seq<nat> {
    if count == 0 then [] else Floors(start, count - 1, units) + Floor(start + count - 1, units)
  }

  function Printed(numbers: seq<nat>): seq<string> {
    seq(|numbers|, i requires 0 <= i < |numbers| => Digits(numbers[i]))
  }

  lemma PrintedAppend(numbers: seq<nat>, number: nat)
    ensures Printed(numbers + [number]) == Printed(numbers) + [Digits(number)]
  {
  }

  lemma FloorStep(before: seq<nat>, floor: nat, n: nat)
    requires n > 0
    ensures before + Floor(floor, n) == (before + Floor(floor, n - 1)) + [floor * 100 + n]
  {
    assert Floor(floor, n) == Floor(floor, n - 1) + [floor * 100 + n];
  }

  /** Unit = floor * 100 + position. */
  method FloorUnitNames(floorStart: nat, floorEnd: nat, unitsPerFloor: nat) returns (names: seq<string>)
    requires floorStart <= floorEnd
    ensures names == Printed(Floors(floorStart, floorEnd - floorStart + 1, unitsPerFloor))
  {
    names := [];
    var floor := floorStart;
    while floor <= floorEnd
      invariant floorStart <= floor <= floorEnd + 1
      invariant names == Printed(Floors(floorStart, floor - floorStart, unitsPerFloor))
    {
      ghost var before := Floors(floorStart, floor - floorStart, unitsPerFloor);
      assert before + Floor(floor, 0) == before;
      assert Floors(floorStart, floor + 1 - floorStart, unitsPerFloor) == before + Floor(floor, unitsPerFloor);
      hide Printed, Floor, Floors, Digits;
      var n := 1;
      while n <= unitsPerFloor
        invariant 1 <= n <= unitsPerFloor + 1
        invariant names == Printed(before + Floor(floor, n - 1))
      {
        FloorStep(before, floor, n);
        PrintedAppend(before + Floor(floor, n - 1), floor * 100 + n);
        names := names + [Digits(floor * 100 + n)];
        n := n + 1;
      }
      floor := floor + 1;
    }
  }

  predicate Increasing(numbers: seq<nat>) {
    forall i, j :: 0 <= i < j < |numbers| ==> numbers[i] < numbers[j]
  }

  /** Floors of at most 100 units do not reach into each other. */
  lemma {:induction false} FloorsIncrease(start: nat, count: nat, units: nat)
    requires units <= 100 || count <= 1
    ensures Increasing(Floors(start, count, units))
    ensures units <= 100 ==> forall i :: 0 <= i < |Floors(start, count, units)| ==>
              Floors(start, count, units)[i] <= (start + count) * 100
  {
    if count > 0 {
      FloorsIncrease(start, count - 1, units);
      assert count == 1 ==> Floors(start, 0, units) == [];
    }
  }

  /** Numbers of the first two floors stand at the start of any longer list. */
  lemma {:induction false} FloorsStart(start: nat, count: nat, units: nat)
    requires count >= 2
    ensures |Floors(start, count, units)| >= 2 * units
    ensures Floors(start, count, units)[..2 * units] == Floor(start, units) + Floor(start + 1, units)
  {
    if count == 2 {
      assert Floors(start, 1, units) == Floor(start, units);
    } else {
      FloorsStart(start, count - 1, units);
    }
  }

  lemma SameName(a: nat, b: nat)
    ensures ToLower(Digits(a)) == ToLower(Digits(b)) <==> a == b
  {
    LowerDigits(Digits(a));
    LowerDigits(Digits(b));
    ValueOfDigits(a);
    ValueOfDigits(b);
  }

  /** The names are pairwise distinct exactly when a floor has at most 100 units or there is only one floor. */
  lemma UnitNamesDistinct(floorStart: nat, floorEnd: nat, unitsPerFloor: nat)
    requires floorStart <= floorEnd
    ensures Distinct(Printed(Floors(floorStart, floorEnd - floorStart + 1, unitsPerFloor)))
            <==> unitsPerFloor <= 100 || floorStart == floorEnd
  {
    var numbers := Floors(floorStart, floorEnd - floorStart + 1, unitsPerFloor);
    var names := Printed(numbers);
    if unitsPerFloor <= 100 || floorStart == floorEnd {
      FloorsIncrease(floorStart, floorEnd - floorStart + 1, unitsPerFloor);
      forall i, j | 0 <= i < j < |names| ensures ToLower(names[i]) != ToLower(names[j]) {
        SameName(numbers[i], numbers[j]);
      }
    } else {
      FloorsStart(floorStart, floorEnd - floorStart + 1, unitsPerFloor);
      assert numbers[100] == numbers[..2 * unitsPerFloor][100] == (floorStart + 1) * 100 + 1;
      assert numbers[unitsPerFloor] == numbers[..2 * unitsPerFloor][unitsPerFloor] == (floorStart + 1) * 100 + 1;
      assert ToLower(names[100]) == ToLower(names[unitsPerFloor]);
    }
  }

  // ---------- blocks ----------

  /** The text with zeros before it up to a width. */
  function PadStart(s: string, width: nat): (r: string)
    decreases width - |s|
  {
    if |s| >= width then s else PadStart("0" + s, width)
  }

  /** Just as many zeros are added as are missing. */
  lemma {:induction false} PadAddsZeros(s: string, width: nat)
    ensures var r := PadStart(s, width);
            && |r| == (if |s| < width then width else |s|)
            && r[|r| - |s|..] == s && forall i :: 0 <= i < |r| - |s| ==> r[i] == '0'
    decreases width - |s|
  {
    if |s| < width {
      PadAddsZeros("0" + s, width);
      var r := PadStart(s, width);
      assert r[|r| - |s| - 1..] == "0" + s;
      assert r[|r| - |s|..] == r[|r| - |s| - 1..][1..];
      assert r[|r| - |s| - 1] == r[|r| - |s| - 1..][0];
    }
  }

  lemma {:induction false} ValueAppend(a: string, b: string)
    requires AllDigits(a) && AllDigits(b) && Value(a) == 0
    ensures AllDigits(a + b) && Value(a + b) == Value(b)
  {
    if b == [] {
      assert a + b == a;
    } else {
      var n := |b| - 1;
      ValueAppend(a, b[..n]);
      assert (a + b)[..|a + b| - 1] == a + b[..n];
    }
  }

  lemma {:induction false} PadKeepsValue(s: string, width: nat)
    requires AllDigits(s)
    ensures AllDigits(PadStart(s, width)) && Value(PadStart(s, width)) == Value(s)
    decreases width - |s|
  {
    if |s| < width {
      assert Value("0") == 0 by {
        assert "0"[..0] == [];
      }
      ValueAppend("0", s);
      PadKeepsValue("0" + s, width);
    }
  }

  method StructureBlockNames(blockStart: nat, blockEnd: nat, blockDigits: nat) returns (names: seq<string>)
    requires blockStart <= blockEnd
    ensures |names| == blockEnd - blockStart + 1
    ensures forall i :: 0 <= i < |names| ==> names[i] == PadStart(Digits(blockStart + i), blockDigits)
    ensures Distinct(names)
  {
    names := [];
    var n := blockStart;
    while n <= blockEnd
      invariant blockStart <= n <= blockEnd + 1 && |names| == n - blockStart
      invariant forall i :: 0 <= i < |names| ==> names[i] == PadStart(Digits(blockStart + i), blockDigits)
    {
      names := names + [PadStart(Digits(n), blockDigits)];
      n := n + 1;
    }
    forall i, j | 0 <= i < j < |names| ensures ToLower(names[i]) != ToLower(names[j]) {
      BlockNamesDiffer(blockStart + i, blockStart + j, blockDigits);
    }
  }

  /** Padding never makes two numbers look the same. */
  lemma BlockNamesDiffer(a: nat, b: nat, width: nat)
    ensures ToLower(PadStart(Digits(a), width)) == ToLower(PadStart(Digits(b), width)) <==> a == b
  {
    PadKeepsValue(Digits(a), width);
    PadKeepsValue(Digits(b), width);
    LowerDigits(PadStart(Digits(a), width));
    LowerDigits(PadStart(Digits(b), width));
    ValueOfDigits(a);
    ValueOfDigits(b);
  }
}
