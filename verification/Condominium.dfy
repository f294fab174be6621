/** The operations on the blocks, units and people of one client. */
module Condominium {
  import opened Lists
  import opened Locations
  import opened Names
  import opened UnitNames
  import opened Wrappers

  datatype Move = Move(isMember: bool, person: Id, source: Id, target: Id)

  class Client {
    var blocks: Blocks
    var units: Units
    var registrations: People
    var members: People
    var moves: seq<Move>
    var nextId: Id

    ghost predicate Valid()
      reads this
    {
      && (forall u :: u in units ==> units[u].block in blocks)
      && (forall b :: b in blocks ==> b < nextId) && (forall u :: u in units ==> u < nextId)
      && BlockNamesUnique(blocks) && UnitNamesUnique(units)
      && AllLabelled(registrations, blocks, units) && AllLabelled(members, blocks, units)
    }

    constructor ()
      ensures Valid() && blocks == map[] && units == map[] && registrations == map[] && members == map[] && moves == []
    {
      blocks, units, registrations, members, moves, nextId := map[], map[], map[], map[], [], 0;
    }

    /** Renames or switches a block; the people in it get the new name. */
    method UpdateBlock(id: Id, name: Option<string>, isActive: Option<bool>, isAdministrative: Option<bool>)
      returns (answer: Answer<Block>)
      requires Valid() && name != Some("")
      modifies this
      ensures Valid()
      ensures answer == BlockUpdateAnswer(old(blocks), old(units), id, name, isActive, isAdministrative)
      ensures !answer.Ok? ==>
                blocks == old(blocks) && registrations == old(registrations) && members == old(members)
      ensures answer.Ok? ==>
                && blocks == old(blocks)[id := answer.value]
                && registrations == BlockRelabelled(old(registrations), units, id, answer.value.name)
                && members == BlockRelabelled(old(members), units, id, answer.value.name)
      ensures units == old(units) && moves == old(moves) && nextId == old(nextId)
    {
      hide BlockUpdateAnswer, BlockRelabelled, AllLabelled, BlockNamesUnique, UnitNamesUnique;
      answer := CheckBlockUpdate(id, name, isActive, isAdministrative);
      if !answer.Ok? {
        return;
      }
      var current, next := blocks[id], answer.value;
      BlockRenameKeepsLabels(registrations, blocks, units, id, next);
      BlockRenameKeepsLabels(members, blocks, units, id, next);
      SameNameSameLabels(registrations, blocks, units, id);
      SameNameSameLabels(members, blocks, units, id);
      blocks := blocks[id := next];
      if name.Some? && name.value != current.name {
        SyncBlockLabel(id, next.name);
      }
    }

    /** Decides on an update of a block. */
    method CheckBlockUpdate(id: Id, name: Option<string>, isActive: Option<bool>, isAdministrative: Option<bool>)
      returns (answer: Answer<Block>)
      requires Valid()
      ensures answer == BlockUpdateAnswer(blocks, units, id, name, isActive, isAdministrative)
      ensures answer.Ok? ==>
                && id in blocks && BlockNamesUnique(blocks[id := answer.value])
                && answer.value.name == if name.Some? then name.value else blocks[id].name
    {
      hide AllLabelled, UnitNamesUnique;
      if id !in blocks {
        return NotFound;
      }
      if isActive == Some(false) && exists u :: u in units && units[u].block == id && units[u].isActive {
        return BadRequest;
      }
      if name.Some? && ToLower(name.value) != ToLower(blocks[id].name)
         && exists b :: b in blocks && ToLower(blocks[b].name) == ToLower(name.value) {
        return Conflict;
      }
      var next := blocks[id];
      if name.Some? {
        next := next.(name := name.value);
      }
      if isActive.Some? {
        next := next.(isActive := isActive.value);
      }
      if isAdministrative.Some? {
        next := next.(isAdministrative := isAdministrative.value);
      }
      BlockUpdateKeepsNames(blocks, id, next);
      answer := Ok(next);
    }

    /** Writes a block's name into the records of the people living in it. */
    method SyncBlockLabel(block: Id, name: string)
      modifies this`registrations, this`members
      ensures registrations == BlockRelabelled(old(registrations), units, block, name)
      ensures members == BlockRelabelled(old(members), units, block, name)
    {
      registrations := map k | k in registrations ::
        if registrations[k].unitId.Some? && registrations[k].unitId.value in units && units[registrations[k].unitId.value].block == block
        then registrations[k].(blockText := Some(name)) else registrations[k];
      members := map k | k in members ::
        if members[k].unitId.Some? && members[k].unitId.value in units && units[members[k].unitId.value].block == block
        then members[k].(blockText := Some(name)) else members[k];
    }

    /** Renames or switches a unit; the people in it get its names. */
    method UpdateUnit(id: Id, name: Option<string>, isActive: Option<bool>) returns (answer: Answer<Unit>)
      requires Valid() && name != Some("")
      modifies this
      ensures Valid()
      ensures answer == UnitUpdateAnswer(old(units), old(registrations), old(members), id, name, isActive)
      ensures !answer.Ok? ==> units == old(units) && registrations == old(registrations) && members == old(members)
      ensures answer.Ok? ==>
                && units == old(units)[id := answer.value] && answer.value.block in blocks
                && registrations == UnitRelabelled(old(registrations), id, blocks[answer.value.block].name, answer.value.name)
                && members == UnitRelabelled(old(members), id, blocks[answer.value.block].name, answer.value.name)
      ensures blocks == old(blocks) && moves == old(moves) && nextId == old(nextId)
    {
      hide UnitUpdateAnswer, UnitRelabelled, AllLabelled, BlockNamesUnique, UnitNamesUnique;
      answer := CheckUnitUpdate(id, name, isActive);
      if !answer.Ok? {
        return;
      }
      var current, next := units[id], answer.value;
      var blockName := blocks[current.block].name;
      UnitRenameKeepsLabels(registrations, blocks, units, id, next);
      UnitRenameKeepsLabels(members, blocks, units, id, next);
      SameUnitSameLabels(registrations, blocks, units, id);
      SameUnitSameLabels(members, blocks, units, id);
      units := units[id := next];
      if name.Some? && name.value != current.name {
        SyncUnitLabel(id, blockName, next.name);
      }
    }

    /** Decides on an update of a unit. */
    method CheckUnitUpdate(id: Id, name: Option<string>, isActive: Option<bool>) returns (answer: Answer<Unit>)
      requires Valid()
      ensures answer == UnitUpdateAnswer(units, registrations, members, id, name, isActive)
      ensures answer.Ok? ==>
                && id in units && UnitNamesUnique(units[id := answer.value]) && answer.value.block == units[id].block
                && answer.value.name == if name.Some? then name.value else units[id].name
    {
      hide AllLabelled, BlockNamesUnique;
      if id !in units {
        return NotFound;
      }
      if isActive == Some(false)
         && ((exists k :: k in registrations && registrations[k].active && registrations[k].unitId == Some(id))
             || exists k :: k in members && members[k].active && members[k].unitId == Some(id)) {
        return BadRequest;
      }
      if name.Some? && ToLower(name.value) != ToLower(units[id].name)
         && exists u :: u in units && units[u].block == units[id].block && ToLower(units[u].name) == ToLower(name.value) {
        return Conflict;
      }
      var next := units[id];
      if name.Some? {
        next := next.(name := name.value);
      }
      if isActive.Some? {
        next := next.(isActive := isActive.value);
      }
      UnitUpdateKeepsNames(units, id, next);
      answer := Ok(next);
    }

    /** Writes both names into the records of the people living in a unit. */
    method SyncUnitLabel(unit: Id, blockName: string, unitName: string)
      modifies this`registrations, this`members
      ensures registrations == UnitRelabelled(old(registrations), unit, blockName, unitName)
      ensures members == UnitRelabelled(old(members), unit, blockName, unitName)
    {
      registrations := map k | k in registrations ::
        if registrations[k].unitId == Some(unit)
        then registrations[k].(blockText := Some(blockName), unitText := Some(unitName)) else registrations[k];
      members := map k | k in members ::
        if members[k].unitId == Some(unit)
        then members[k].(blockText := Some(blockName), unitText := Some(unitName)) else members[k];
    }

    /** Everybody in the source unit moves to the target; the source is switched off. */
    method MergeUnits(source: Id, target: Id)
      requires Valid() && source in units && target in units && source != target
      modifies this`registrations, this`members, this`units
      ensures Valid()
      ensures units == old(units)[source := old(units)[source].(isActive := false)]
      ensures var b, u := blocks[units[target].block].name, units[target].name;
              && registrations == Rehoused(old(registrations), Residents(old(registrations), source), target, b, u)
              && members == Rehoused(old(members), Residents(old(members), source), target, b, u)
      ensures Residents(registrations, source) == {} && Residents(members, source) == {}
      ensures Residents(registrations, target) == old(Residents(registrations, source) + Residents(registrations, target))
      ensures Residents(members, target) == old(Residents(members, source) + Residents(members, target))
    {
      hide Rehoused, Residents, AllLabelled, UnitNamesUnique, BlockNamesUnique;
      var b, u := blocks[units[target].block].name, units[target].name;
      MergeKeeps(registrations, blocks, units, source, target);
      MergeKeeps(members, blocks, units, source, target);
      SwitchOff(source);
      var who, whoMembers := FindResidents(source);
      Rehouse(who, whoMembers, target, b, u);
    }

    /** The chosen people are linked to a unit and get its names. */
    method Rehouse(who: set<Id>, whoMembers: set<Id>, unit: Id, blockName: string, unitName: string)
      modifies this`registrations, this`members
      ensures registrations == Rehoused(old(registrations), who, unit, blockName, unitName)
      ensures members == Rehoused(old(members), whoMembers, unit, blockName, unitName)
    {
      registrations := map k | k in registrations ::
        if k in who then registrations[k].(unitId := Some(unit), blockText := Some(blockName), unitText := Some(unitName))
        else registrations[k];
      members := map k | k in members ::
        if k in whoMembers then members[k].(unitId := Some(unit), blockText := Some(blockName), unitText := Some(unitName))
        else members[k];
    }

    /** Everybody linked to a unit. */
    method FindResidents(unit: Id) returns (who: set<Id>, whoMembers: set<Id>)
      ensures who == Residents(registrations, unit) && whoMembers == Residents(members, unit)
    {
      who := set k | k in registrations && registrations[k].unitId == Some(unit);
      whoMembers := set k | k in members && members[k].unitId == Some(unit);
    }

    method SwitchOff(unit: Id)
      requires Valid() && unit in units
      modifies this`units
      ensures Valid() && units == old(units)[unit := old(units)[unit].(isActive := false)]
    {
      LabelsSurviveSwitch(registrations, blocks, units, unit);
      LabelsSurviveSwitch(members, blocks, units, unit);
      UnitUpdateKeepsNames(units, unit, units[unit].(isActive := false));
      units := units[unit := units[unit].(isActive := false)];
    }

    /** Nobody lives in the unit any more; the texts stay. The unit is switched off. */
    method UnlinkUnit(unit: Id) returns (registrationCount: nat, memberCount: nat)
      requires Valid() && unit in units
      modifies this`registrations, this`members, this`units
      ensures Valid()
      ensures units == old(units)[unit := old(units)[unit].(isActive := false)]
      ensures registrations == Unlinked(old(registrations), unit) && members == Unlinked(old(members), unit)
      ensures Residents(registrations, unit) == {} && Residents(members, unit) == {}
      ensures registrationCount == |old(Residents(registrations, unit))| && memberCount == |old(Residents(members, unit))|
    {
      hide Residents, Unlinked;
      UnlinkingKeepsLabels(registrations, blocks, units, unit);
      UnlinkingKeepsLabels(members, blocks, units, unit);
      registrationCount, memberCount := Unlink(unit);
      SwitchOff(unit);
    }

    method Unlink(unit: Id) returns (registrationCount: nat, memberCount: nat)
      modifies this`registrations, this`members
      ensures registrations == Unlinked(old(registrations), unit) && members == Unlinked(old(members), unit)
      ensures registrationCount == |old(Residents(registrations, unit))| && memberCount == |old(Residents(members, unit))|
    {
      var leaving, leavingMembers := FindResidents(unit);
      registrationCount, memberCount := |leaving|, |leavingMembers|;
      registrations := map k | k in registrations ::
        if k in leaving then registrations[k].(unitId := None) else registrations[k];
      members := map k | k in members :: if k in leavingMembers then members[k].(unitId := None) else members[k];
    }

    /**
     * Links everybody active with the given text and no unit, and the unlinked records that belong to them, all
     * selected from one snapshot: an unlinked registration is bound if it or a member of it is in the group, an
     * unlinked member if it or its registration is.
     */
    method BindGroup(blockKey: string, unitKey: string, unit: Id, key: string -> string)
      returns (registrationCount: nat, memberCount: nat)
      requires Valid() && unit in units
      modifies this`registrations, this`members
      ensures Valid()
      ensures registrations.Keys == old(registrations).Keys && members.Keys == old(members).Keys
      ensures var b, u := blocks[units[unit].block].name, units[unit].name;
              && (forall r :: r in old(registrations) ==>
                    registrations[r] ==
                    if old(registrations[r].unitId.None?
                           && (InGroup(registrations[r], blockKey, unitKey, key)
                               || exists m :: m in members && members[m].registration == Some(r) && members[m].unitId.None?
                                              && InGroup(members[m], blockKey, unitKey, key)))
                    then old(registrations)[r].(unitId := Some(unit), blockText := Some(b), unitText := Some(u))
                    else old(registrations)[r])
              && (forall m :: m in old(members) ==>
                    members[m] ==
                    if old(members[m].unitId.None?
                           && (InGroup(members[m], blockKey, unitKey, key)
                               || (members[m].registration.Some? && members[m].registration.value in registrations
                                   && registrations[members[m].registration.value].unitId.None?
                                   && InGroup(registrations[members[m].registration.value], blockKey, unitKey, key))))
                    then old(members)[m].(unitId := Some(unit), blockText := Some(b), unitText := Some(u))
                    else old(members)[m])
      ensures var s := Select(old(registrations), old(members), blockKey, unitKey, key);
              var b, u := blocks[units[unit].block].name, units[unit].name;
              && registrations == Rehoused(old(registrations), BoundRegistrations(s), unit, b, u)
              && members == Rehoused(old(members), BoundMembers(s), unit, b, u)
              && registrationCount == |BoundRegistrations(s)| && memberCount == |BoundMembers(s)|
    {
      hide Select, Rehoused, AllLabelled, UnitNamesUnique, BlockNamesUnique, InGroup;
      var b, u := blocks[units[unit].block].name, units[unit].name;
      ghost var s := Select(registrations, members, blockKey, unitKey, key);
      RehousingKeepsLabels(registrations, blocks, units, BoundRegistrations(s), unit);
      RehousingKeepsLabels(members, blocks, units, BoundMembers(s), unit);
      SelectedAre(registrations, members, blockKey, unitKey, key);
      RehousedAre(registrations, BoundRegistrations(s), unit, b, u);
      RehousedAre(members, BoundMembers(s), unit, b, u);
      registrationCount, memberCount := Bind(blockKey, unitKey, unit, b, u, key);
    }

    /** The people a binding selects. */
    method Snapshot(blockKey: string, unitKey: string, key: string -> string)
      returns (reg: set<Id>, mem: set<Id>, memLinked: set<Id>, regLinked: set<Id>)
      ensures Select(registrations, members, blockKey, unitKey, key) == Selection(reg, mem, memLinked, regLinked)
      ensures reg !! regLinked && mem !! memLinked
    {
      reg := set r | r in registrations && registrations[r].unitId.None? && registrations[r].active
        && key(TextOf(registrations[r].blockText)) == blockKey && key(TextOf(registrations[r].unitText)) == unitKey;
      mem := set m | m in members && members[m].unitId.None? && members[m].active
        && key(TextOf(members[m].blockText)) == blockKey && key(TextOf(members[m].unitText)) == unitKey;
      memLinked := set m | m in members && members[m].unitId.None? && members[m].registration.Some?
        && members[m].registration.value in reg && m !in mem;
      regLinked := set r | r in registrations && registrations[r].unitId.None? && r !in reg
        && exists m :: m in mem && members[m].registration == Some(r);
    }

    method Bind(blockKey: string, unitKey: string, unit: Id, blockName: string, unitName: string, key: string -> string)
      returns (registrationCount: nat, memberCount: nat)
      modifies this`registrations, this`members
      ensures var s := Select(old(registrations), old(members), blockKey, unitKey, key);
              && registrations == Rehoused(old(registrations), BoundRegistrations(s), unit, blockName, unitName)
              && members == Rehoused(old(members), BoundMembers(s), unit, blockName, unitName)
              && registrationCount == |BoundRegistrations(s)| && memberCount == |BoundMembers(s)|
    {
      hide Select;
      var reg, mem, memLinked, regLinked := Snapshot(blockKey, unitKey, key);
      DisjointSelection(Selection(reg, mem, memLinked, regLinked));
      registrationCount, memberCount := |reg| + |regLinked|, |mem| + |memLinked|;
      Rehouse(reg + regLinked, mem + memLinked, unit, blockName, unitName);
    }

    /**
     * Moves one person, found by its registration or by a member: the registration and one member get the
     * new unit. With several members the others stay where they are.
     */
    method MovePerson(isMember: bool, person: Id, source: Id, targetBlock: Id, target: Id)
      returns (answer: Answer<Option<Id>>)
      requires Valid()
      modifies this`registrations, this`members, this`moves
      ensures Valid()
      ensures answer.Ok? <==> MoveAllowed(blocks, units, old(registrations), old(members), isMember, person, source, targetBlock, target)
      ensures !answer.Ok? ==>
                && answer == Refusal(blocks, units, registrations, members, isMember, person, source, targetBlock, target)
                && registrations == old(registrations) && members == old(members) && moves == old(moves)
      ensures answer.Ok? ==>
                && target in units && units[target].block in blocks
                && registrations == Rehoused(old(registrations), OwnRegistration(old(members), isMember, person), target,
                                             blocks[units[target].block].name, units[target].name)
                && members == Rehoused(old(members), FaceSet(answer.value), target,
                                       blocks[units[target].block].name, units[target].name)
                && moves == old(moves) + [Move(isMember, person, source, target)]
      ensures answer.Ok? ==>
                var own := OwnMembers(old(members), isMember, person);
                if own == {} then answer.value == None else answer.value.Some? && answer.value.value in own
    {
      var registration, own;
      answer, registration, own := CheckMove(isMember, person, source, targetBlock, target);
      if !answer.Ok? {
        return;
      }
      var chosen := None;
      if own != {} {
        var m :| m in own;
        chosen := Some(m);
      }
      var b, u := blocks[units[target].block].name, units[target].name;
      RehousingKeepsLabels(registrations, blocks, units, OwnRegistration(members, isMember, person), target);
      RehousingKeepsLabels(members, blocks, units, FaceSet(chosen), target);
      hide OwnRegistration, OwnMembers, MoveAllowed, Refusal, Rehoused, AllLabelled, UnitNamesUnique, BlockNamesUnique;
      Rehouse(if registration.None? then {} else {registration.value}, if chosen.None? then {} else {chosen.value}, target, b, u);
      moves := moves + [Move(isMember, person, source, target)];
      answer := Ok(chosen);
    }

    /** The checks before a move, in order: both units, the records of the person, and their links. */
    method CheckMove(isMember: bool, person: Id, source: Id, targetBlock: Id, target: Id)
      returns (answer: Answer<Option<Id>>, registration: Option<Id>, own: set<Id>)
      requires Valid()
      ensures answer.Ok? <==> MoveAllowed(blocks, units, registrations, members, isMember, person, source, targetBlock, target)
      ensures !answer.Ok? ==>
                answer == Refusal(blocks, units, registrations, members, isMember, person, source, targetBlock, target)
      ensures answer.Ok? ==>
                FaceSet(registration) == OwnRegistration(members, isMember, person) && own == OwnMembers(members, isMember, person)
    {
      registration, own := None, {};
      if source == target {
        return BadRequest, registration, own;
      }
      if source !in units {
        return NotFound, registration, own;
      }
      if target !in units || !units[target].isActive || !blocks[units[target].block].isActive
         || units[target].block != targetBlock {
        return BadRequest, registration, own;
      }
      if isMember && person !in members {
        return NotFound, registration, own;
      }
      registration := if isMember then members[person].registration else Some(person);
      if registration.Some? && registration.value !in registrations {
        return NotFound, registration, own;
      }
      own := if isMember then {person} else set m | m in members && members[m].registration == Some(person);
      if (if isMember then members[person].unitId else registrations[person].unitId) != Some(source) {
        return Conflict, registration, own;
      }
      if (registration.Some? && registrations[registration.value].unitId !in {None, Some(source)})
         || exists m :: m in own && members[m].unitId !in {None, Some(source)} {
        return Conflict, registration, own;
      }
      answer := Ok(None);
    }

    /** A new block, if its name is free. */
    method CreateBlock(name: string) returns (answer: Answer<Id>)
      requires Valid()
      modifies this`blocks, this`nextId
      ensures Valid()
      ensures answer.Ok? <==> !BlockNameTaken(old(blocks), name)
      ensures answer.Ok? ==> answer.value !in old(blocks) && blocks == old(blocks)[answer.value := Block(name, true, false)]
      ensures !answer.Ok? ==> answer == Conflict && blocks == old(blocks)
    {
      if exists b :: b in blocks && ToLower(blocks[b].name) == ToLower(name) {
        return Conflict;
      }
      var id := InsertBlock(name);
      answer := Ok(id);
    }

    method InsertBlock(name: string) returns (id: Id)
      requires Valid() && !BlockNameTaken(blocks, name)
      modifies this`blocks, this`nextId
      ensures Valid() && id == old(nextId) && id !in old(blocks) && blocks == old(blocks)[id := Block(name, true, false)]
    {
      BlockUpdateKeepsNames(blocks, nextId, Block(name, true, false));
      GrowthKeepsLabels(registrations, blocks, units, blocks[nextId := Block(name, true, false)], units);
      GrowthKeepsLabels(members, blocks, units, blocks[nextId := Block(name, true, false)], units);
      id := nextId;
      blocks := blocks[id := Block(name, true, false)];
      nextId := nextId + 1;
    }

    /** A new unit in an active block, if its name is free there. */
    method CreateUnit(block: Id, name: string) returns (answer: Answer<Id>)
      requires Valid()
      modifies this`units, this`nextId
      ensures Valid()
      ensures answer.Ok? <==> block in blocks && blocks[block].isActive && !UnitNameTaken(old(units), block, name)
      ensures answer.Ok? ==> answer.value !in old(units) && units == old(units)[answer.value := Unit(block, name, true)]
      ensures !answer.Ok? ==>
                units == old(units) && answer == if block !in blocks || !blocks[block].isActive then BadRequest else Conflict
    {
      if block !in blocks || !blocks[block].isActive {
        return BadRequest;
      }
      if exists u :: u in units && units[u].block == block && ToLower(units[u].name) == ToLower(name) {
        return Conflict;
      }
      var id := InsertUnit(block, name);
      answer := Ok(id);
    }

    method InsertUnit(block: Id, name: string) returns (id: Id)
      requires Valid() && block in blocks && !UnitNameTaken(units, block, name)
      modifies this`units, this`nextId
      ensures Valid() && id !in old(units) && units == old(units)[id := Unit(block, name, true)]
    {
      UnitUpdateKeepsNames(units, nextId, Unit(block, name, true));
      GrowthKeepsLabels(registrations, blocks, units, blocks, units[nextId := Unit(block, name, true)]);
      GrowthKeepsLabels(members, blocks, units, blocks, units[nextId := Unit(block, name, true)]);
      id := nextId;
      units := units[id := Unit(block, name, true)];
      nextId := nextId + 1;
    }

    method SomebodyLinked(gone: set<Id>) returns (linked: bool)
      ensures linked == (Linked(registrations, gone) || Linked(members, gone))
    {
      linked := (exists k :: k in registrations && registrations[k].unitId.Some? && registrations[k].unitId.value in gone)
        || exists k :: k in members && members[k].unitId.Some? && members[k].unitId.value in gone;
    }

    /** An inactive unit nobody is linked to is deleted. */
    method DeleteUnit(unit: Id) returns (answer: Answer<bool>)
      requires Valid()
      modifies this`units
      ensures Valid()
      ensures answer.Ok? <==> unit in old(units) && !old(units)[unit].isActive && !Linked(registrations, {unit}) && !Linked(members, {unit})
      ensures answer.Ok? ==> answer.value
      ensures !answer.Ok? ==>
                answer == if unit !in old(units) then NotFound else if old(units)[unit].isActive then BadRequest else Conflict
      ensures units == if answer.Ok? then old(units) - {unit} else old(units)
    {
      if unit !in units {
        return NotFound;
      }
      if units[unit].isActive {
        return BadRequest;
      }
      var linked := SomebodyLinked({unit});
      if linked {
        return Conflict;
      }
      RemovalKeepsNames(blocks, units, {}, {unit});
      RemovalKeepsLabels(registrations, blocks, units, {}, {unit});
      RemovalKeepsLabels(members, blocks, units, {}, {unit});
      assert blocks - {} == blocks;
      units := units - {unit};
      answer := Ok(true);
    }

    /** An inactive block whose units nobody is linked to is deleted with them. */
    method DeleteBlock(block: Id) returns (answer: Answer<bool>)
      requires Valid()
      modifies this`blocks, this`units
      ensures Valid()
      ensures var own := UnitsOf(old(units), block);
              && (answer.Ok? <==> block in old(blocks) && !old(blocks)[block].isActive && !Linked(registrations, own) && !Linked(members, own))
              && (answer.Ok? ==> blocks == old(blocks) - {block} && units == old(units) - own)
      ensures answer.Ok? ==> answer.value
      ensures !answer.Ok? ==>
                answer == if block !in old(blocks) then NotFound else if old(blocks)[block].isActive then BadRequest else Conflict
      ensures !answer.Ok? ==> blocks == old(blocks) && units == old(units)
    {
      hide AllLabelled, UnitNamesUnique, BlockNamesUnique, Linked;
      if block !in blocks {
        return NotFound;
      }
      if blocks[block].isActive {
        return BadRequest;
      }
      var own := set u | u in units && units[u].block == block;
      assert own == UnitsOf(units, block);
      var linked := SomebodyLinked(own);
      if linked {
        return Conflict;
      }
      RemovalKeepsNames(blocks, units, {block}, own);
      RemovalKeepsLabels(registrations, blocks, units, {block}, own);
      RemovalKeepsLabels(members, blocks, units, {block}, own);
      units := units - own;
      blocks := blocks - {block};
      answer := Ok(true);
    }

    method MoveOrUnlink(item: Item)
      requires Valid() && item.source in units && item.target != Some(item.source)
      requires item.target.Some? ==> item.target.value in units
      modifies this`registrations, this`members, this`units
      ensures Valid() && units == old(units)[item.source := old(units)[item.source].(isActive := false)]
      ensures registrations == AfterItem(old(registrations), item, blocks, old(units))
      ensures members == AfterItem(old(members), item, blocks, old(units))
    {
      hide Rehoused, Residents, Unlinked;
      match item.target {
        case Some(target) =>
          MergeUnits(item.source, target);
        case None =>
          var a, b := UnlinkUnit(item.source);
      }
    }

    /** Position of the first item that cannot be moved, or the number of items. */
    method FirstRefused(items: seq<Item>) returns (i: nat)
      ensures i <= |items| && (forall j :: 0 <= j < i ==> Movable(items[j], blocks, units))
      ensures i < |items| ==> !Movable(items[i], blocks, units)
    {
      i := 0;
      while i < |items|
        invariant i <= |items| && forall j :: 0 <= j < i ==> Movable(items[j], blocks, units)
      {
        var item := items[i];
        if item.source !in units || item.target == Some(item.source) {
          return;
        }
        if item.target.Some? {
          var target := item.target.value;
          if target !in units || !units[target].isActive || units[target].block !in blocks || !blocks[units[target].block].isActive {
            return;
          }
        }
        i := i + 1;
      }
    }

    /**
     * Moves whole units, or unlinks those without a target, after checking all items. Everybody ends where the
     * journey over the items leads, with the names of the last home; nobody else is touched. A unit that is
     * left is off and lived in only as said by StillLivedIn. When no unit is both left and moved into, every unit left ends up empty and every unit moved into is still in use.
     */
    method MoveGroups(items: seq<Item>) returns (answer: Answer<(nat, nat)>)
      requires Valid()
      modifies this`registrations, this`members, this`units
      ensures Valid()
      ensures answer.Ok? <==> forall i :: 0 <= i < |items| ==> Movable(items[i], blocks, old(units))
      ensures !answer.Ok? ==> units == old(units) && registrations == old(registrations) && members == old(members)
      ensures !answer.Ok? ==>
                exists i :: 0 <= i < |items| && !Movable(items[i], blocks, units)
                            && answer == if items[i].source !in units then NotFound else BadRequest
      ensures answer.Ok? ==>
                && registrations == AllPlaced(old(registrations), items, blocks, old(units))
                && members == AllPlaced(old(members), items, blocks, old(units))
                && units == SwitchedOff(old(units), Sources(items))
                && answer.value == (|Filter(items, HasTarget)|, |Filter(items, HasNoTarget)|)
      ensures answer.Ok? ==> forall u :: u in Sources(items) ==>
                && !units[u].isActive
                && (Residents(registrations, u) != {} <==> StillLivedIn(old(registrations), items, u))
                && (Residents(members, u) != {} <==> StillLivedIn(old(members), items, u))
      ensures answer.Ok? && Sources(items) !! Targets(items) ==>
                && (forall u :: u in Sources(items) ==> Residents(registrations, u) == {} && Residents(members, u) == {})
                && (forall u :: u in Targets(items) ==> u in units && units[u].isActive)
    {
      var refused := FirstRefused(items);
      if refused < |items| {
        return if items[refused].source !in units then NotFound else BadRequest;
      }
      hide Residents, Client.Valid, Sources, Targets, Placed, AllPlaced, Filter, StillLivedIn;
      ghost var regs, mems, before := registrations, members, units;
      var moved, unlinked := MoveAll(items);
      SourcesAreOff(items, blocks, before);
      forall u | u in Sources(items)
        ensures Residents(registrations, u) != {} <==> StillLivedIn(regs, items, u)
        ensures Residents(members, u) != {} <==> StillLivedIn(mems, items, u)
      {
        LivedInAtEnd(regs, items, blocks, before, u);
        LivedInAtEnd(mems, items, blocks, before, u);
      }
      if Sources(items) !! Targets(items) {
        TargetsInUse(items, blocks, before);
        TargetsStayOn(items, before);
        forall u | u in Sources(items) ensures Residents(registrations, u) == {} && Residents(members, u) == {} {
          NobodyRemains(regs, items, u);
          NobodyRemains(mems, items, u);
        }
      }
      answer := Ok((moved, unlinked));
    }

    /** The next of the items. */
    method MoveNext(items: seq<Item>, n: nat, ghost regs: People, ghost mems: People, ghost before: Units)
      requires n < |items| && Valid() && Movable(items[n], blocks, before)
      requires units == SwitchedOff(before, Sources(items[..n]))
      requires registrations == AllPlaced(regs, items[..n], blocks, before)
      requires members == AllPlaced(mems, items[..n], blocks, before)
      modifies this`registrations, this`members, this`units
      ensures Valid() && units == SwitchedOff(before, Sources(items[..n + 1]))
      ensures registrations == AllPlaced(regs, items[..n + 1], blocks, before)
      ensures members == AllPlaced(mems, items[..n + 1], blocks, before)
    {
      hide Client.Valid, Placed, AllPlaced, AfterItem, SwitchedOff, Sources, BlockNameOf, UnitNameOf;
      ghost var left := Sources(items[..n]);
      SameUnits(before, left);
      SameNames(registrations, items[n], blocks, before, left);
      SameNames(members, items[n], blocks, before, left);
      OneStepFurther(regs, items, n, blocks, before);
      OneStepFurther(mems, items, n, blocks, before);
      OneMoreLeft(before, items, n);
      MoveOrUnlink(items[n]);
    }

    /** Moves or unlinks one unit after the other. */
    method MoveAll(items: seq<Item>) returns (moved: nat, unlinked: nat)
      requires Valid() && forall i :: 0 <= i < |items| ==> Movable(items[i], blocks, units)
      modifies this`registrations, this`members, this`units
      ensures Valid()
      ensures registrations == AllPlaced(old(registrations), items, blocks, old(units))
      ensures members == AllPlaced(old(members), items, blocks, old(units))
      ensures units == SwitchedOff(old(units), Sources(items))
      ensures moved == |Filter(items, HasTarget)| && unlinked == |Filter(items, HasNoTarget)|
    {
      moved, unlinked := 0, 0;
      ghost var before := units;
      NobodyMoved(registrations, blocks, units);
      NobodyMoved(members, blocks, units);
      NothingLeft(units);
      hide Client.Valid, Placed, AllPlaced, AfterItem, SwitchedOff, Sources, BlockNameOf, UnitNameOf;
      hide Movable, Filter;
      assert items[..0] == [];
      for n := 0 to |items|
        invariant Valid() && units == SwitchedOff(before, Sources(items[..n]))
        invariant registrations == AllPlaced(old(registrations), items[..n], blocks, before)
        invariant members == AllPlaced(old(members), items[..n], blocks, before)
        invariant moved == |Filter(items[..n], HasTarget)| && unlinked == |Filter(items[..n], HasNoTarget)|
      {
        var item := items[n];
        assert Movable(item, blocks, before);
        MoveNext(items, n, old(registrations), old(members), before);
        CountsGrow(items, n);
        if item.target.Some? {
          moved := moved + 1;
        } else {
          unlinked := unlinked + 1;
        }
      }
      assert items[..|items|] == items;
    }

    static method HasUnit(units: Units, block: Id, name: string) returns (taken: bool)
      ensures taken == UnitNameTaken(units, block, name)
    {
      taken := exists u :: u in units && units[u].block == block && ToLower(units[u].name) == ToLower(name);
    }

    /** Gives a block the units it lacks. */
    method FillBlock(block: Id, names: seq<string>) returns (created: nat)
      requires Valid() && block in blocks && Distinct(names)
      modifies this`units, this`nextId
      ensures Valid() && Extends(old(units), units) && created <= |names|
      ensures forall u :: u in units && u !in old(units) ==> units[u] == Unit(block, units[u].name, true) && units[u].name in names
      ensures forall name :: name in names ==> UnitNameTaken(units, block, name)
      ensures |units| == |old(units)| + created
      ensures (forall name :: name in names ==> UnitNameTaken(old(units), block, name)) ==> units == old(units)
    {
      hide Client.Valid, UnitNameTaken;
      created := 0;
      var before := units;
      for i := 0 to |names|
        invariant Valid() && Extends(before, units) && created <= i
        invariant forall u :: u in units && u !in before ==> units[u] == Unit(block, units[u].name, true) && units[u].name in names[..i]
        invariant forall j :: 0 <= j < i ==> UnitNameTaken(units, block, names[j])
        invariant |units| == |before| + created
        invariant (forall name :: name in names[..i] ==> UnitNameTaken(before, block, name)) ==> units == before
      {
        ghost var was := units;
        assert names[..i + 1] == names[..i] + [names[i]];
        var taken := HasUnit(before, block, names[i]);
        if !taken {
          NotTakenYet(before, units, block, names, i);
          var id := InsertUnit(block, names[i]);
          UnitTakenByInsert(was, id, block, names[i]);
          created := created + 1;
        }
        forall j | 0 <= j <= i ensures UnitNameTaken(units, block, names[j]) {
          if j < i {
            TakenStays(was, units, block, names[j]);
          } else if UnitNameTaken(before, block, names[i]) {
            TakenStays(before, units, block, names[i]);
          }
        }
      }
      assert names[..|names|] == names;
    }

    /** Sorts the wanted names into active blocks, missing ones and inactive ones. */
    method Classify(names: seq<string>) returns (active: seq<Id>, missing: seq<string>, inactive: seq<string>)
      requires Valid() && Distinct(names)
      ensures |active| + |missing| + |inactive| == |names|
      ensures forall name :: name in inactive ==> PassedOver(blocks, name, names)
      ensures ActiveAmong(blocks, active, names)
      ensures forall name :: name in missing ==> name in names && !BlockNameTaken(blocks, name)
      ensures forall name :: name in names ==> BlockNameTaken(blocks, name) || name in missing
      ensures Distinct(missing)
    {
      hide PassedOver;
      active, missing, inactive := [], [], [];
      for i := 0 to |names|
        invariant |active| + |missing| + |inactive| == i
        invariant forall name :: name in inactive ==> PassedOver(blocks, name, names)
        invariant ActiveAmong(blocks, active, names[..i])
        invariant forall name :: name in missing ==> name in names[..i] && !BlockNameTaken(blocks, name)
        invariant forall name :: name in names[..i] ==> BlockNameTaken(blocks, name) || name in missing
        invariant Distinct(missing)
      {
        assert names[..i + 1] == names[..i] + [names[i]];
        if !exists b :: b in blocks && ToLower(blocks[b].name) == ToLower(names[i]) {
          AddedIsDistinct(missing, names, i);
          NoBlockAdded(blocks, active, names, i);
          missing := missing + [names[i]];
        } else {
          var b :| b in blocks && ToLower(blocks[b].name) == ToLower(names[i]);
          OneBlockAdded(blocks, active, names, i, b);
          if blocks[b].isActive {
            active := active + [b];
          } else {
            IsPassedOver(blocks, b, names, i);
            inactive := inactive + [blocks[b].name];
          }
        }
      }
      assert names[..|names|] == names;
    }

    method InsertBlocks(missing: seq<string>) returns (created: seq<Id>)
      requires Valid() && Distinct(missing) && forall name :: name in missing ==> !BlockNameTaken(blocks, name)
      modifies this`blocks, this`nextId
      ensures Valid() && Added(old(blocks), blocks, created, missing)
    {
      hide Client.Valid, BlockNameTaken, Added, Distinct;
      created := [];
      ghost var before := blocks;
      NothingAdded(blocks);
      assert missing[..0] == [];
      for i := 0 to |missing|
        invariant Valid() && Added(before, blocks, created, missing[..i])
      {
        assert missing[..i + 1] == missing[..i] + [missing[i]];
        BlockNotTakenYet(before, blocks, created, missing, i);
        OneMoreAdded(before, blocks, created, missing[..i], nextId, missing[i]);
        var id := InsertBlock(missing[i]);
        created := created + [id];
      }
      assert missing[..|missing|] == missing;
    }

    /** Creates the blocks and units that are missing; inactive blocks with a wanted name are passed over. */
    method GenerateStructure(blockNames: seq<string>, unitNames: seq<string>)
      returns (blocksCreated: nat, unitsCreated: nat, unitsSkipped: nat, inactiveSkipped: seq<string>)
      requires Valid() && Distinct(blockNames) && Distinct(unitNames)
      modifies this`blocks, this`units, this`nextId
      ensures Valid() && Extends(old(blocks), blocks) && Extends(old(units), units)
      ensures Complete(blocks, units, blockNames, unitNames)
      ensures forall b :: b in blocks && b !in old(blocks) ==> blocks[b] == Block(blocks[b].name, true, false) && blocks[b].name in blockNames
      ensures forall u :: u in units && u !in old(units) ==>
                && units[u].isActive && units[u].name in unitNames
                && blocks[units[u].block].isActive && Requested(blocks[units[u].block].name, blockNames)
      ensures blocksCreated == |blocks| - |old(blocks)| && unitsCreated == |units| - |old(units)|
      ensures |inactiveSkipped| <= |blockNames| && forall name :: name in inactiveSkipped ==> PassedOver(old(blocks), name, blockNames)
      ensures unitsCreated + unitsSkipped == (|blockNames| - |inactiveSkipped|) * |unitNames|
      ensures old(Complete(blocks, units, blockNames, unitNames)) ==> blocks == old(blocks) && units == old(units)
    {
      hide Client.Valid, BlockNameTaken, UnitNameTaken, Distinct, ActiveAmong, Requested, Complete, PassedOver;
      ghost var blocks0 := blocks;
      var targets;
      targets, blocksCreated, inactiveSkipped := EnsureBlocks(blockNames);
      TargetsRequested(blocks, targets, blockNames);
      CompleteNow(blocks, units, targets, blockNames, unitNames);
      if exists name :: name in blockNames && !BlockNameTaken(blocks0, name) {
        IncompleteBlocks(blocks0, units, blockNames, unitNames);
      }
      unitsCreated := FillBlocks(targets, unitNames);
      CompleteNow(blocks, units, targets, blockNames, unitNames);
      unitsSkipped := |targets| * |unitNames| - unitsCreated;
    }

    /** The active blocks with the wanted names, created where there is none. */
    method EnsureBlocks(blockNames: seq<string>) returns (targets: seq<Id>, created: nat, inactive: seq<string>)
      requires Valid() && Distinct(blockNames)
      modifies this`blocks, this`nextId
      ensures Valid() && Extends(old(blocks), blocks)
      ensures ActiveAmong(blocks, targets, blockNames) && |targets| + |inactive| == |blockNames|
      ensures forall name :: name in inactive ==> PassedOver(old(blocks), name, blockNames)
      ensures forall name :: name in blockNames ==> BlockNameTaken(blocks, name)
      ensures forall b :: b in blocks && b !in old(blocks) ==> blocks[b] == Block(blocks[b].name, true, false) && blocks[b].name in blockNames
      ensures created == |blocks| - |old(blocks)|
      ensures (forall name :: name in blockNames ==> BlockNameTaken(old(blocks), name)) ==> blocks == old(blocks)
    {
      hide Client.Valid, BlockNameTaken, Distinct, ActiveAmong, PassedOver;
      ghost var before := blocks;
      var active, missing;
      active, missing, inactive := Classify(blockNames);
      var ids := InsertBlocks(missing);
      targets, created := active + ids, |ids|;
      TargetsAreActive(before, blocks, active, ids, blockNames, missing);
      TakenAfter(before, blocks, blockNames, missing);
      if missing != [] {
        SomethingMissing(before, blockNames, missing);
      }
    }

    /** Gives each of the blocks the units it lacks. */
    method FillBlocks(targets: seq<Id>, unitNames: seq<string>) returns (created: nat)
      requires Valid() && Distinct(unitNames) && forall t :: t in targets ==> t in blocks
      modifies this`units, this`nextId
      ensures Valid() && Extends(old(units), units)
      ensures forall t, n :: t in targets && n in unitNames ==> UnitNameTaken(units, t, n)
      ensures forall u :: u in units && u !in old(units) ==> units[u].isActive && units[u].name in unitNames && units[u].block in targets
      ensures created == |units| - |old(units)| && created <= |targets| * |unitNames|
      ensures (forall t, n :: t in targets && n in unitNames ==> UnitNameTaken(old(units), t, n)) ==> units == old(units)
    {
      hide Client.Valid, UnitNameTaken, Distinct;
      created := 0;
      ghost var before := units;
      for k := 0 to |targets|
        invariant Valid() && Extends(before, units)
        invariant forall t, n :: t in targets[..k] && n in unitNames ==> UnitNameTaken(units, t, n)
        invariant forall u :: u in units && u !in before ==> units[u].isActive && units[u].name in unitNames && units[u].block in targets
        invariant created == |units| - |before| && created <= k * |unitNames|
        invariant (forall t, n :: t in targets && n in unitNames ==> UnitNameTaken(before, t, n)) ==> units == before
      {
        ghost var was := units;
        assert targets[..k + 1] == targets[..k] + [targets[k]] && targets[k] in targets;
        var n := FillBlock(targets[k], unitNames);
        created := created + n;
        forall t, name | t in targets[..k + 1] && name in unitNames ensures UnitNameTaken(units, t, name) {
          if t in targets[..k] {
            TakenStays(was, units, t, name);
          }
        }
      }
      assert targets[..|targets|] == targets;
    }
  }
}
