/** Blocks, units and the people linked to them, whose records carry the names of their unit as text. */
module Locations {
  import opened Lists
  import opened Names
  import opened UnitNames
  import opened Wrappers

  type Id = nat

  datatype Block = Block(name: string, isActive: bool, isAdministrative: bool)

  datatype Unit = Unit(block: Id, name: string, isActive: bool)

  /**
   * A registration, or a member with the registration it belongs to. `active` says that the record is
   * active and, for a registration, that its status is not a rejected one.
   */
  datatype Person = Person(
    registration: Option<Id>, unitId: Option<Id>, blockText: Option<string>, unitText: Option<string>,
    active: bool, otherData: string)

  type Blocks = map<Id, Block>
  type Units = map<Id, Unit>
  type People = map<Id, Person>

  datatype Answer<T> = Ok(value: T) | NotFound | BadRequest | Conflict

  // ---------- labels ----------

  /** Whoever has a unit carries the unit's and its block's current names. */
  predicate Labelled(p: Person, blocks: Blocks, units: Units) {
    p.unitId.Some? ==>
      && p.unitId.value in units && units[p.unitId.value].block in blocks
      && p.blockText == Some(blocks[units[p.unitId.value].block].name)
      && p.unitText == Some(units[p.unitId.value].name)
  }

  predicate AllLabelled(people: People, blocks: Blocks, units: Units) {
    forall k :: k in people ==> Labelled(people[k], blocks, units)
  }

  function WithLocation(p: Person, blockName: string, unitName: string): Person {
    p.(blockText := Some(blockName), unitText := Some(unitName))
  }

  predicate LivesIn(p: Person, units: Units, block: Id) {
    p.unitId.Some? && p.unitId.value in units && units[p.unitId.value].block == block
  }

  function BlockRelabelled(people: People, units: Units, block: Id, name: string): People {
    map k | k in people :: if LivesIn(people[k], units, block) then people[k].(blockText := Some(name)) else people[k]
  }

  function UnitRelabelled(people: People, unit: Id, blockName: string, unitName: string): People {
    map k | k in people :: if people[k].unitId == Some(unit) then WithLocation(people[k], blockName, unitName) else people[k]
  }

  function Settled(p: Person, unit: Id, blockName: string, unitName: string): Person {
    WithLocation(p, blockName, unitName).(unitId := Some(unit))
  }

  /** The chosen people now live in the unit; nobody else is touched. */
  function Rehoused(people: People, who: set<Id>, unit: Id, blockName: string, unitName: string): People {
    map k | k in people :: if k in who then Settled(people[k], unit, blockName, unitName) else people[k]
  }

  function Residents(people: People, unit: Id): set<Id> {
    set k | k in people && people[k].unitId == Some(unit)
  }

  function Unlinked(people: People, unit: Id): People {
    map k | k in people :: if people[k].unitId == Some(unit) then people[k].(unitId := None) else people[k]
  }

  lemma BlockRenameKeepsLabels(people: People, blocks: Blocks, units: Units, id: Id, next: Block)
    requires AllLabelled(people, blocks, units) && id in blocks
    ensures AllLabelled(BlockRelabelled(people, units, id, next.name), blocks[id := next], units)
    ensures next.name == blocks[id].name ==> AllLabelled(people, blocks[id := next], units)
  {
  }

  lemma UnitRenameKeepsLabels(people: People, blocks: Blocks, units: Units, id: Id, next: Unit)
    requires AllLabelled(people, blocks, units) && id in units && next.block == units[id].block && next.block in blocks
    ensures AllLabelled(UnitRelabelled(people, id, blocks[next.block].name, next.name), blocks, units[id := next])
    ensures next.name == units[id].name ==> AllLabelled(people, blocks, units[id := next])
  {
  }

  lemma RehousingKeepsLabels(people: People, blocks: Blocks, units: Units, who: set<Id>, unit: Id)
    requires AllLabelled(people, blocks, units) && unit in units && units[unit].block in blocks
    ensures AllLabelled(Rehoused(people, who, unit, blocks[units[unit].block].name, units[unit].name), blocks, units)
  {
  }

  lemma UnlinkingKeepsLabels(people: People, blocks: Blocks, units: Units, unit: Id)
    requires AllLabelled(people, blocks, units)
    ensures AllLabelled(Unlinked(people, unit), blocks, units) && Residents(Unlinked(people, unit), unit) == {}
  {
  }

  lemma RehousedAre(people: People, who: set<Id>, unit: Id, blockName: string, unitName: string)
    ensures var after := Rehoused(people, who, unit, blockName, unitName);
            && after.Keys == people.Keys
            && forall k :: k in people ==>
                 after[k] == if k in who then people[k].(unitId := Some(unit), blockText := Some(blockName), unitText := Some(unitName))
                             else people[k]
  {
  }

  /** After everybody moved, the source is empty and the target holds both groups. */
  lemma Emptied(people: People, source: Id, target: Id, b: string, u: string)
    requires source != target
    ensures var after := Rehoused(people, Residents(people, source), target, b, u);
            && Residents(after, source) == {}
            && Residents(after, target) == Residents(people, source) + Residents(people, target)
  {
  }

  /** Everybody moves, the source is switched off, and all labels are right. */
  lemma MergeKeeps(people: People, blocks: Blocks, units: Units, source: Id, target: Id)
    requires AllLabelled(people, blocks, units) && source in units && target in units && source != target
    requires units[source].block in blocks && units[target].block in blocks
    ensures var off := units[source := units[source].(isActive := false)];
            var after := Rehoused(people, Residents(people, source), target, blocks[units[target].block].name, units[target].name);
            && AllLabelled(after, blocks, off) && Residents(after, source) == {}
            && Residents(after, target) == Residents(people, source) + Residents(people, target)
  {
    hide AllLabelled, Rehoused, Residents;
    var off := units[source := units[source].(isActive := false)];
    LabelsSurviveSwitch(people, blocks, units, source);
    RehousingKeepsLabels(people, blocks, off, Residents(people, source), target);
    Emptied(people, source, target, blocks[units[target].block].name, units[target].name);
  }

  /** Records added to the catalog leave everybody's label right. */
  lemma GrowthKeepsLabels(people: People, blocks: Blocks, units: Units, moreBlocks: Blocks, moreUnits: Units)
    requires AllLabelled(people, blocks, units)
    requires forall b :: b in blocks ==> b in moreBlocks && moreBlocks[b] == blocks[b]
    requires forall u :: u in units ==> u in moreUnits && moreUnits[u] == units[u]
    ensures AllLabelled(people, moreBlocks, moreUnits)
  {
  }

  // ---------- names ----------

  predicate BlockNamesUnique(blocks: Blocks) {
    forall a, b :: a in blocks && b in blocks && a != b ==> ToLower(blocks[a].name) != ToLower(blocks[b].name)
  }

  predicate UnitNamesUnique(units: Units) {
    forall a, b :: a in units && b in units && a != b && units[a].block == units[b].block ==>
      ToLower(units[a].name) != ToLower(units[b].name)
  }

  predicate BlockNameTaken(blocks: Blocks, name: string) {
    exists b :: b in blocks && ToLower(blocks[b].name) == ToLower(name)
  }

  predicate UnitNameTaken(units: Units, block: Id, name: string) {
    exists u :: u in units && units[u].block == block && ToLower(units[u].name) == ToLower(name)
  }

  lemma BlockUpdateKeepsNames(blocks: Blocks, id: Id, next: Block)
    requires BlockNamesUnique(blocks)
    requires (id in blocks && ToLower(next.name) == ToLower(blocks[id].name)) || !BlockNameTaken(blocks, next.name)
    ensures BlockNamesUnique(blocks[id := next])
  {
  }

  lemma UnitUpdateKeepsNames(units: Units, id: Id, next: Unit)
    requires UnitNamesUnique(units) && (id in units ==> next.block == units[id].block)
    requires (id in units && ToLower(next.name) == ToLower(units[id].name)) || !UnitNameTaken(units, next.block, next.name)
    ensures UnitNamesUnique(units[id := next])
  {
  }

  // ---------- binding by text ----------

  /** Not linked yet, active, and with the group's text. */
  predicate Matches(p: Person, blockKey: string, unitKey: string, key: string -> string) {
    p.unitId.None? && p.active && key(TextOf(p.blockText)) == blockKey && key(TextOf(p.unitText)) == unitKey
  }

  function TextOf(o: Option<string>): string {
    if o.None? then "" else o.value
  }

  /** The people a binding selects, all read from one snapshot. */
  datatype Selection = Selection(reg: set<Id>, mem: set<Id>, memLinked: set<Id>, regLinked: set<Id>)

  function Select(registrations: People, members: People, blockKey: string, unitKey: string, key: string -> string): Selection {
    var reg := set r | r in registrations && Matches(registrations[r], blockKey, unitKey, key);
    var mem := set m | m in members && Matches(members[m], blockKey, unitKey, key);
    Selection(
      reg, mem,
      set m | m in members && members[m].unitId.None? && members[m].registration.Some?
              && members[m].registration.value in reg && m !in mem,
      set r | r in registrations && registrations[r].unitId.None? && r !in reg
              && exists m :: m in mem && members[m].registration == Some(r))
  }

  /** Active, with a block and a unit text whose keys are those of the group. */
  predicate InGroup(p: Person, blockKey: string, unitKey: string, key: string -> string) {
    && p.active
    && blockKey == key(if p.blockText.Some? then p.blockText.value else "")
    && unitKey == key(if p.unitText.Some? then p.unitText.value else "")
  }

  /** Who is selected: an unlinked registration or member, if it or its partner is unlinked and in the group. */
  lemma SelectedAre(registrations: People, members: People, blockKey: string, unitKey: string, key: string -> string)
    ensures var s := Select(registrations, members, blockKey, unitKey, key);
            && s.reg !! s.regLinked && s.mem !! s.memLinked
            && (forall r :: r in BoundRegistrations(s) <==>
                  && r in registrations && registrations[r].unitId.None?
                  && (InGroup(registrations[r], blockKey, unitKey, key)
                      || exists m :: m in members && members[m].registration == Some(r) && members[m].unitId.None?
                                     && InGroup(members[m], blockKey, unitKey, key)))
            && (forall m :: m in BoundMembers(s) <==>
                  && m in members && members[m].unitId.None?
                  && (InGroup(members[m], blockKey, unitKey, key)
                      || (members[m].registration.Some? && members[m].registration.value in registrations
                          && registrations[members[m].registration.value].unitId.None?
                          && InGroup(registrations[members[m].registration.value], blockKey, unitKey, key))))
  {
  }

  function BoundRegistrations(s: Selection): set<Id> {
    s.reg + s.regLinked
  }

  function BoundMembers(s: Selection): set<Id> {
    s.mem + s.memLinked
  }

  /** The parts of a selection are counted without overlap. */
  lemma DisjointSelection(s: Selection)
    requires s.reg !! s.regLinked && s.mem !! s.memLinked
    ensures |BoundRegistrations(s)| == |s.reg| + |s.regLinked| && |BoundMembers(s)| == |s.mem| + |s.memLinked|
  {
  }

  /** A group of people with the same text, and where it is bound to. */
  datatype Group = Group(blockKey: string, unitKey: string, unit: Id, blockName: string, unitName: string)

  /** Registrations and members after a group was bound. */
  function AfterBinding(registrations: People, members: People, g: Group, key: string -> string): (People, People) {
    var s := Select(registrations, members, g.blockKey, g.unitKey, key);
    (Rehoused(registrations, BoundRegistrations(s), g.unit, g.blockName, g.unitName),
     Rehoused(members, BoundMembers(s), g.unit, g.blockName, g.unitName))
  }

  predicate OfGroup(p: Person, g: Group, key: string -> string) {
    InGroup(p, g.blockKey, g.unitKey, key)
  }

  /** The record after a binding of somebody who has no partner. */
  function BoundAlone(p: Person, g: Group, key: string -> string): Person {
    if p.unitId.None? && OfGroup(p, g, key)
    then p.(unitId := Some(g.unit), blockText := Some(g.blockName), unitText := Some(g.unitName)) else p
  }

  /** Who is not in the group and has no partner in it stays as it was. */
  lemma OthersUnbound(registrations: People, members: People, g: Group, key: string -> string, k: Id)
    ensures var (regs, mems) := AfterBinding(registrations, members, g, key);
            && (k in registrations && !OfGroup(registrations[k], g, key)
                && (forall m :: m in members && members[m].registration == Some(k) ==> !OfGroup(members[m], g, key))
                ==> regs[k] == registrations[k])
            && (k in members && !OfGroup(members[k], g, key)
                && (members[k].registration.Some? && members[k].registration.value in registrations
                    ==> !OfGroup(registrations[members[k].registration.value], g, key))
                ==> mems[k] == members[k])
  {
    var s := Select(registrations, members, g.blockKey, g.unitKey, key);
    SelectedAre(registrations, members, g.blockKey, g.unitKey, key);
    RehousedAre(registrations, BoundRegistrations(s), g.unit, g.blockName, g.unitName);
    RehousedAre(members, BoundMembers(s), g.unit, g.blockName, g.unitName);
    hide Select, Rehoused, InGroup, BoundRegistrations, BoundMembers;
  }

  lemma AloneIsBound(registrations: People, members: People, g: Group, key: string -> string, k: Id)
    ensures var (regs, mems) := AfterBinding(registrations, members, g, key);
            && regs.Keys == registrations.Keys && mems.Keys == members.Keys
            && (forall m :: m in members ==> mems[m].registration == members[m].registration)
            && (k in registrations && (forall m :: m in members ==> members[m].registration != Some(k)) ==>
                  regs[k] == BoundAlone(registrations[k], g, key))
            && (k in members && (members[k].registration.Some? ==> members[k].registration.value !in registrations) ==>
                  mems[k] == BoundAlone(members[k], g, key))
  {
    var s := Select(registrations, members, g.blockKey, g.unitKey, key);
    SelectedAre(registrations, members, g.blockKey, g.unitKey, key);
    RehousedAre(registrations, BoundRegistrations(s), g.unit, g.blockName, g.unitName);
    RehousedAre(members, BoundMembers(s), g.unit, g.blockName, g.unitName);
    hide Select, Rehoused, InGroup, BoundRegistrations, BoundMembers;
  }

  lemma AloneCommutes(p: Person, g: Group, h: Group, key: string -> string)
    requires (g.blockKey, g.unitKey) != (h.blockKey, h.unitKey)
    ensures BoundAlone(BoundAlone(p, g, key), h, key) == BoundAlone(BoundAlone(p, h, key), g, key)
  {
  }

  /** Bindings of different groups commute on people without partners. */
  lemma BindingsCommute(registrations: People, members: People, g: Group, h: Group, key: string -> string, k: Id)
    requires (g.blockKey, g.unitKey) != (h.blockKey, h.unitKey)
    ensures var (regsG, memsG) := AfterBinding(registrations, members, g, key);
            var (regsH, memsH) := AfterBinding(registrations, members, h, key);
            var (regsGH, memsGH) := AfterBinding(regsG, memsG, h, key);
            var (regsHG, memsHG) := AfterBinding(regsH, memsH, g, key);
            && (k in registrations && (forall m :: m in members ==> members[m].registration != Some(k)) ==> regsGH[k] == regsHG[k])
            && (k in members && (members[k].registration.Some? ==> members[k].registration.value !in registrations) ==>
                  memsGH[k] == memsHG[k])
  {
    hide AfterBinding, BoundAlone;
    var (regsG, memsG) := AfterBinding(registrations, members, g, key);
    var (regsH, memsH) := AfterBinding(registrations, members, h, key);
    AloneIsBound(registrations, members, g, key, k);
    AloneIsBound(registrations, members, h, key, k);
    AloneIsBound(regsG, memsG, h, key, k);
    AloneIsBound(regsH, memsH, g, key, k);
    if k in registrations {
      AloneCommutes(registrations[k], g, h, key);
    }
    if k in members {
      AloneCommutes(members[k], g, h, key);
    }
  }

  /** The unlinked members of a registration. */
  function UnlinkedMembers(members: People, r: Id): set<Id> {
    set m | m in members && members[m].registration == Some(r) && members[m].unitId.None?
  }

  /**
   * An unlinked registration and its unlinked members are bound together or left together exactly when the
   * registration itself matches, or its members all match, or none of them does.
   */
  lemma BoundTogether(registrations: People, members: People, blockKey: string, unitKey: string, key: string -> string, r: Id)
    requires r in registrations && registrations[r].unitId.None?
    ensures var s := Select(registrations, members, blockKey, unitKey, key);
            var own := UnlinkedMembers(members, r);
            (forall m :: m in own ==> (m in BoundMembers(s) <==> r in BoundRegistrations(s)))
            <==> r in s.reg || own <= s.mem || own !! s.mem
  {
  }

  /** With at most one member, a pair is always bound together. */
  lemma PairBoundTogether(
    registrations: People, members: People, blockKey: string, unitKey: string, key: string -> string, r: Id, m: Id)
    requires r in registrations && registrations[r].unitId.None?
    requires UnlinkedMembers(members, r) == {m}
    ensures var s := Select(registrations, members, blockKey, unitKey, key);
            m in BoundMembers(s) <==> r in BoundRegistrations(s)
  {
    BoundTogether(registrations, members, blockKey, unitKey, key, r);
  }

  // ---------- updates of the catalog ----------

  function PatchedBlock(b: Block, name: Option<string>, isActive: Option<bool>, isAdministrative: Option<bool>): Block {
    Block(
      if name.Some? then name.value else b.name,
      if isActive.Some? then isActive.value else b.isActive,
      if isAdministrative.Some? then isAdministrative.value else b.isAdministrative)
  }

  function PatchedUnit(u: Unit, name: Option<string>, isActive: Option<bool>): Unit {
    Unit(u.block, if name.Some? then name.value else u.name, if isActive.Some? then isActive.value else u.isActive)
  }

  predicate Occupied(people: People, unit: Id) {
    exists k :: k in people && people[k].active && people[k].unitId == Some(unit)
  }

  /** A block with active units stays active; its new name is free. */
  function BlockUpdateAnswer(
    blocks: Blocks, units: Units, id: Id, name: Option<string>, isActive: Option<bool>, isAdministrative: Option<bool>): Answer<Block>
  {
    if id !in blocks then NotFound
    else if isActive == Some(false) && exists u :: u in units && units[u].block == id && units[u].isActive then BadRequest
    else if name.Some? && ToLower(name.value) != ToLower(blocks[id].name) && BlockNameTaken(blocks, name.value) then Conflict
    else Ok(PatchedBlock(blocks[id], name, isActive, isAdministrative))
  }

  /** A unit somebody active lives in stays active; its new name is free in its block. */
  function UnitUpdateAnswer(
    units: Units, registrations: People, members: People, id: Id, name: Option<string>, isActive: Option<bool>): Answer<Unit>
  {
    if id !in units then NotFound
    else if isActive == Some(false) && (Occupied(registrations, id) || Occupied(members, id)) then BadRequest
    else if name.Some? && ToLower(name.value) != ToLower(units[id].name) && UnitNameTaken(units, units[id].block, name.value)
    then Conflict
    else Ok(PatchedUnit(units[id], name, isActive))
  }

  lemma LabelsSurviveSwitch(people: People, blocks: Blocks, units: Units, unit: Id)
    requires AllLabelled(people, blocks, units) && unit in units && units[unit].block in blocks
    ensures AllLabelled(people, blocks, units[unit := units[unit].(isActive := false)])
  {
  }

  /** Writing the name that is already there changes nothing. */
  lemma SameNameSameLabels(people: People, blocks: Blocks, units: Units, id: Id)
    requires AllLabelled(people, blocks, units) && id in blocks
    ensures BlockRelabelled(people, units, id, blocks[id].name) == people
  {
  }

  lemma SameUnitSameLabels(people: People, blocks: Blocks, units: Units, id: Id)
    requires AllLabelled(people, blocks, units) && id in units && units[id].block in blocks
    ensures UnitRelabelled(people, id, blocks[units[id].block].name, units[id].name) == people
  {
  }

  // ---------- moves and removals ----------

  function FaceSet(o: Option<Id>): set<Id> {
    if o.None? then {} else {o.value}
  }

  /** The registration of the person to be moved. */
  function OwnRegistration(members: People, isMember: bool, person: Id): set<Id> {
    if !isMember then {person} else if person in members then FaceSet(members[person].registration) else {}
  }

  /** The members looked at: the one itself, or all of the registration. */
  function OwnMembers(members: People, isMember: bool, person: Id): set<Id> {
    set m | m in members && (if isMember then m == person else members[m].registration == Some(person))
  }

  /** Both units are there, and the target is in use and in the named block. */
  predicate RouteOpen(blocks: Blocks, units: Units, source: Id, targetBlock: Id, target: Id) {
    && source != target && source in units && target in units && units[target].block in blocks
    && units[target].isActive && blocks[units[target].block].isActive && units[target].block == targetBlock
  }

  /** The person's records are there. */
  predicate Known(registrations: People, members: People, isMember: bool, person: Id) {
    (isMember ==> person in members) && OwnRegistration(members, isMember, person) <= registrations.Keys
  }

  /** The selected record is linked to the source, and no record of the person to another unit. */
  predicate AtSource(registrations: People, members: People, isMember: bool, person: Id, source: Id)
    requires Known(registrations, members, isMember, person)
  {
    && (if isMember then members[person].unitId == Some(source) else registrations[person].unitId == Some(source))
    && (forall r :: r in OwnRegistration(members, isMember, person) ==> registrations[r].unitId in {None, Some(source)})
    && (forall m :: m in OwnMembers(members, isMember, person) ==> members[m].unitId in {None, Some(source)})
  }

  predicate MoveAllowed(
    blocks: Blocks, units: Units, registrations: People, members: People, isMember: bool, person: Id,
    source: Id, targetBlock: Id, target: Id)
  {
    && RouteOpen(blocks, units, source, targetBlock, target)
    && Known(registrations, members, isMember, person)
    && AtSource(registrations, members, isMember, person, source)
  }

  /** Why a move is refused. */
  function Refusal<T>(
    blocks: Blocks, units: Units, registrations: People, members: People, isMember: bool, person: Id,
    source: Id, targetBlock: Id, target: Id): (a: Answer<T>)
    ensures !a.Ok?
  {
    if source == target then BadRequest
    else if source !in units then NotFound
    else if !RouteOpen(blocks, units, source, targetBlock, target) then BadRequest
    else if !Known(registrations, members, isMember, person) then NotFound
    else Conflict
  }

  /**
   * A move through the registration leaves nobody of it in the source exactly when no other member was
   * linked there.
   */
  lemma NobodyLeftBehind(members: People, person: Id, chosen: Id, source: Id, target: Id, b: string, u: string)
    requires source != target && chosen in OwnMembers(members, false, person)
    ensures var after := Rehoused(members, {chosen}, target, b, u);
            (forall m :: m in OwnMembers(after, false, person) ==> after[m].unitId != Some(source)) <==>
            (forall m :: m in OwnMembers(members, false, person) && m != chosen ==> members[m].unitId != Some(source))
  {
    var after := Rehoused(members, {chosen}, target, b, u);
    assert OwnMembers(after, false, person) == OwnMembers(members, false, person);
    forall m | m in members ensures after[m].unitId == if m == chosen then Some(target) else members[m].unitId {
    }
  }

  predicate Linked(people: People, units: set<Id>) {
    exists k :: k in people && people[k].unitId.Some? && people[k].unitId.value in units
  }

  function UnitsOf(units: Units, block: Id): set<Id> {
    set u | u in units && units[u].block == block
  }

  /** What nobody is linked to can go. */
  lemma RemovalKeepsLabels(people: People, blocks: Blocks, units: Units, goneBlocks: set<Id>, goneUnits: set<Id>)
    requires AllLabelled(people, blocks, units) && !Linked(people, goneUnits)
    requires forall u :: u in units && units[u].block in goneBlocks ==> u in goneUnits
    ensures AllLabelled(people, blocks - goneBlocks, units - goneUnits)
  {
  }

  lemma RemovalKeepsNames(blocks: Blocks, units: Units, goneBlocks: set<Id>, goneUnits: set<Id>)
    requires BlockNamesUnique(blocks) && UnitNamesUnique(units)
    ensures BlockNamesUnique(blocks - goneBlocks) && UnitNamesUnique(units - goneUnits)
  {
  }

  // ---------- moves of whole units ----------

  datatype Item = Item(source: Id, target: Option<Id>)

  predicate Movable(item: Item, blocks: Blocks, units: Units) {
    && item.source in units
    && (item.target.Some? ==>
          var t := item.target.value;
          t != item.source && t in units && units[t].isActive && units[t].block in blocks && blocks[units[t].block].isActive)
  }

  function Sources(items: seq<Item>): set<Id> {
    set i | i in items :: i.source
  }

  function Targets(items: seq<Item>): set<Id> {
    set i | i in items && i.target.Some? :: i.target.value
  }

  /**
   * Where the items take somebody who lives in a unit: the last unit lived in, and whether the link to it is
   * still there. Somebody unlinked goes no further.
   */
  function Journey(items: seq<Item>, unit: Id): (Id, bool) {
    if items == [] then (unit, true) else
      var (home, linked) := Journey(items[..|items| - 1], unit);
      var item := items[|items| - 1];
      if !linked || item.source != home then (home, linked)
      else if item.target.None? then (home, false)
      else (item.target.value, true)
  }

  function BlockNameOf(blocks: Blocks, units: Units, unit: Id): string {
    if unit in units && units[unit].block in blocks then blocks[units[unit].block].name else ""
  }

  function UnitNameOf(units: Units, unit: Id): string {
    if unit in units then units[unit].name else ""
  }

  /** The record of a person after the items: linked to the end of the journey, with the names of the last home. */
  function Placed(p: Person, items: seq<Item>, blocks: Blocks, units: Units): Person {
    if p.unitId.None? then p else
      var (home, linked) := Journey(items, p.unitId.value);
      WithLocation(p, BlockNameOf(blocks, units, home), UnitNameOf(units, home))
      .(unitId := if linked then Some(home) else None)
  }

  function AllPlaced(people: People, items: seq<Item>, blocks: Blocks, units: Units): People {
    map k | k in people :: Placed(people[k], items, blocks, units)
  }

  /** The units left are switched off. */
  function SwitchedOff(units: Units, left: set<Id>): Units {
    map u | u in units :: if u in left then units[u].(isActive := false) else units[u]
  }

  /** People after one item. */
  function AfterItem(people: People, item: Item, blocks: Blocks, units: Units): People {
    if item.target.None? then Unlinked(people, item.source)
    else Rehoused(people, Residents(people, item.source), item.target.value,
                  BlockNameOf(blocks, units, item.target.value), UnitNameOf(units, item.target.value))
  }

  predicate HasTarget(item: Item) {
    item.target.Some?
  }

  predicate HasNoTarget(item: Item) {
    item.target.None?
  }

  lemma CountsGrow(items: seq<Item>, n: nat)
    requires n < |items|
    ensures |Filter(items[..n + 1], HasTarget)| == |Filter(items[..n], HasTarget)| + if items[n].target.Some? then 1 else 0
    ensures |Filter(items[..n + 1], HasNoTarget)| == |Filter(items[..n], HasNoTarget)| + if items[n].target.Some? then 0 else 1
  {
    hide Filter;
    assert items[..n + 1] == items[..n] + [items[n]];
    FilterAppend(items[..n], items[n], HasTarget);
    FilterAppend(items[..n], items[n], HasNoTarget);
  }

  lemma NothingLeft(units: Units)
    ensures SwitchedOff(units, Sources([])) == units
  {
  }

  lemma SameUnits(units: Units, left: set<Id>)
    ensures SwitchedOff(units, left).Keys == units.Keys
  {
  }

  /** Switching units off changes no name. */
  lemma SameNames(people: People, item: Item, blocks: Blocks, units: Units, left: set<Id>)
    ensures AfterItem(people, item, blocks, SwitchedOff(units, left)) == AfterItem(people, item, blocks, units)
  {
  }

  lemma OneMoreLeft(units: Units, items: seq<Item>, n: nat)
    requires n < |items| && items[n].source in units
    ensures var now := SwitchedOff(units, Sources(items[..n]));
            && items[n].source in now
            && now[items[n].source := now[items[n].source].(isActive := false)] == SwitchedOff(units, Sources(items[..n + 1]))
  {
    SourcesGrow(items[..n + 1]);
    assert items[..n + 1][..n] == items[..n];
  }

  lemma TargetsStayOn(items: seq<Item>, units: Units)
    requires Sources(items) !! Targets(items) && forall u :: u in Targets(items) ==> u in units && units[u].isActive
    ensures forall u :: u in Targets(items) ==>
              u in SwitchedOff(units, Sources(items)) && SwitchedOff(units, Sources(items))[u].isActive
  {
  }

  /** Before the first item everybody is where the records say. */
  lemma NobodyMoved(people: People, blocks: Blocks, units: Units)
    requires AllLabelled(people, blocks, units)
    ensures AllPlaced(people, [], blocks, units) == people
  {
    forall k | k in people ensures Placed(people[k], [], blocks, units) == people[k] {
      assert Labelled(people[k], blocks, units);
    }
  }

  /** One more item takes its residents one step further. */
  lemma OneStepFurther(people: People, items: seq<Item>, n: nat, blocks: Blocks, units: Units)
    requires n < |items|
    ensures AfterItem(AllPlaced(people, items[..n], blocks, units), items[n], blocks, units)
         == AllPlaced(people, items[..n + 1], blocks, units)
  {
    var before := AllPlaced(people, items[..n], blocks, units);
    var after := AfterItem(before, items[n], blocks, units);
    assert items[..n + 1][..n] == items[..n];
    hide BlockNameOf, UnitNameOf, Labelled;
    forall k | k in people ensures after[k] == Placed(people[k], items[..n + 1], blocks, units) {
      PlacedFurther(people[k], items[..n + 1], blocks, units);
      assert k in Residents(before, items[n].source) <==> before[k].unitId == Some(items[n].source);
    }
  }

  lemma PlacedFurther(p: Person, items: seq<Item>, blocks: Blocks, units: Units)
    requires items != []
    ensures var was, item := Placed(p, items[..|items| - 1], blocks, units), items[|items| - 1];
            Placed(p, items, blocks, units)
            == if was.unitId != Some(item.source) then was
               else if item.target.None? then was.(unitId := None)
               else Settled(was, item.target.value, BlockNameOf(blocks, units, item.target.value),
                            UnitNameOf(units, item.target.value))
  {
    hide BlockNameOf, UnitNameOf;
  }

  /** Who lives in no unit that is left stays, with an unchanged record. */
  lemma {:induction false} OthersStay(items: seq<Item>, unit: Id)
    requires unit !in Sources(items)
    ensures Journey(items, unit) == (unit, true)
  {
    if items != [] {
      InSources(items, |items| - 1);
      SourcesGrow(items);
      OthersStay(items[..|items| - 1], unit);
    }
  }

  lemma SourcesGrow(items: seq<Item>)
    requires items != []
    ensures Sources(items) == Sources(items[..|items| - 1]) + {items[|items| - 1].source}
  {
    var front, last := items[..|items| - 1], items[|items| - 1];
    assert items == front + [last];
    forall u | u in Sources(front) + {last.source} ensures u in Sources(items) {
      if u == last.source {
        assert last in items;
      } else {
        var i :| i in front && i.source == u;
        assert i in items;
      }
    }
  }

  /** When no unit is both left and moved into, everybody goes where the first item about the unit says. */
  lemma {:induction false} GoesToTarget(items: seq<Item>, i: nat)
    requires i < |items| && Sources(items) !! Targets(items)
    requires forall j :: 0 <= j < i ==> items[j].source != items[i].source
    ensures Journey(items, items[i].source)
         == if items[i].target.Some? then (items[i].target.value, true) else (items[i].source, false)
  {
    var n, unit := |items| - 1, items[i].source;
    var front := items[..n];
    SourcesGrow(items);
    TargetsGrow(items);
    if i == n {
      forall j | j in front ensures j.source != unit {
        var k :| 0 <= k < |front| && front[k] == j;
      }
      OthersStay(front, unit);
    } else {
      assert front[i] == items[i];
      GoesToTarget(front, i);
      InSources(items, n);
      if items[i].target.Some? {
        assert items[i] in items;
        assert items[i].target.value in Targets(items);
      }
    }
  }

  lemma TargetsGrow(items: seq<Item>)
    requires items != []
    ensures Targets(items[..|items| - 1]) <= Targets(items)
  {
    var front, last := items[..|items| - 1], items[|items| - 1];
    assert items == front + [last];
    forall u | u in Targets(front) ensures u in Targets(items) {
      var i :| i in front && i.target == Some(u);
      assert i in items;
    }
  }

  /** Item j takes somebody from a unit into one that item i has left before and that no later item leaves. */
  predicate MovesIntoLeft(items: seq<Item>, unit: Id, i: nat, j: nat) {
    && i < j < |items| && items[j].target == Some(items[i].source)
    && Journey(items[..j], unit) == (items[j].source, true)
    && items[i].source !in Sources(items[j + 1..])
  }

  /** A journey ends in a unit that is left exactly when some item moves into one left before and not left again. */
  lemma EndsInLeftUnit(items: seq<Item>, unit: Id)
    requires forall i :: i in items ==> i.target != Some(i.source)
    ensures Journey(items, unit).1 && Journey(items, unit).0 in Sources(items)
            <==> exists i, j :: MovesIntoLeft(items, unit, i, j)
  {
    if Journey(items, unit).1 && Journey(items, unit).0 in Sources(items) {
      var i, j := LastMoveIn(items, unit);
    }
    if i, j :| MovesIntoLeft(items, unit, i, j) {
      StaysAfter(items, unit, i, j);
      InSources(items, i);
    }
  }

  lemma {:induction false} LastMoveIn(items: seq<Item>, unit: Id) returns (i: nat, j: nat)
    requires forall i :: i in items ==> i.target != Some(i.source)
    requires Journey(items, unit).1 && Journey(items, unit).0 in Sources(items)
    ensures MovesIntoLeft(items, unit, i, j) && items[i].source == Journey(items, unit).0
  {
    var n := |items| - 1;
    var front, last, home := items[..n], items[n], Journey(items, unit).0;
    SourcesGrow(items);
    var (was, linked) := Journey(front, unit);
    if linked && last.source == was {
      assert last in items && last.target == Some(home);
      i, j :| i < |front| && front[i].source == home && j == n;
    } else {
      i, j := LastMoveIn(front, unit);
      assert items[..j] == front[..j];
      SourcesGrow(items[j + 1..]);
      assert items[j + 1..][..n - j - 1] == front[j + 1..];
    }
  }

  /** After such an item nothing moves the person on. */
  lemma {:induction false} StaysAfter(items: seq<Item>, unit: Id, i: nat, j: nat)
    requires MovesIntoLeft(items, unit, i, j)
    ensures Journey(items, unit) == (items[i].source, true)
  {
    var n := |items| - 1;
    if j < n {
      var front := items[..n];
      SourcesGrow(items[j + 1..]);
      assert items[j + 1..][..n - j - 1] == front[j + 1..];
      assert front[..j] == items[..j];
      StaysAfter(front, unit, i, j);
    }
  }

  /** Unit 0 is left for unit 1; the people of unit 2 then move into it and stay there. */
  lemma MovedIntoSwitchedOff()
    ensures var items := [Item(0, Some(1)), Item(2, Some(0))];
            Journey(items, 2) == (0, true) && 0 in Sources(items)
  {
    var items := [Item(0, Some(1)), Item(2, Some(0))];
    assert items[..1] == [Item(0, Some(1))] && items[..1][..0] == [];
    assert Journey(items[..1], 2) == (2, true);
    assert items[0] in items;
  }

  /** Somebody among these people is moved into a unit that is left before and not left again. */
  predicate StillLivedIn(people: People, items: seq<Item>, unit: Id) {
    exists k, i, j :: k in people && people[k].unitId.Some? && 0 <= i < j < |items|
                      && items[i].source == unit && MovesIntoLeft(items, people[k].unitId.value, i, j)
  }

  /** A unit that is left is lived in at the end exactly then. */
  lemma LivedInAtEnd(people: People, items: seq<Item>, blocks: Blocks, units: Units, unit: Id)
    requires unit in Sources(items) && forall i :: i in items ==> i.target != Some(i.source)
    ensures Residents(AllPlaced(people, items, blocks, units), unit) != {} <==> StillLivedIn(people, items, unit)
  {
    hide Journey, Sources, MovesIntoLeft;
    var after := AllPlaced(people, items, blocks, units);
    if Residents(after, unit) != {} {
      var k :| k in Residents(after, unit);
      assert people[k].unitId.Some? && Journey(items, people[k].unitId.value) == (unit, true);
      var i, j := LastMoveIn(items, people[k].unitId.value);
      MoveOrder(items, people[k].unitId.value, i, j);
    }
    if k, i, j :| k in people && people[k].unitId.Some? && 0 <= i < j < |items|
                  && items[i].source == unit && MovesIntoLeft(items, people[k].unitId.value, i, j) {
      StaysAfter(items, people[k].unitId.value, i, j);
      assert k in Residents(after, unit);
    }
  }

  lemma MoveOrder(items: seq<Item>, unit: Id, i: nat, j: nat)
    requires MovesIntoLeft(items, unit, i, j)
    ensures i < j < |items|
  {
  }

  lemma InSources(items: seq<Item>, n: nat)
    requires n < |items|
    ensures items[n].source in Sources(items)
  {
  }

  lemma SourcesAreOff(items: seq<Item>, blocks: Blocks, units: Units)
    requires forall i :: 0 <= i < |items| ==> Movable(items[i], blocks, units)
    ensures forall u :: u in Sources(items) ==>
              u in SwitchedOff(units, Sources(items)) && !SwitchedOff(units, Sources(items))[u].isActive
  {
  }

  lemma TargetsInUse(items: seq<Item>, blocks: Blocks, units: Units)
    requires forall i :: 0 <= i < |items| ==> Movable(items[i], blocks, units)
    ensures forall u :: u in Targets(items) ==> u in units && units[u].isActive
  {
  }

  /** When no unit is both left and moved into, nobody remains in a unit that is left. */
  lemma NobodyRemains(people: People, items: seq<Item>, unit: Id)
    requires Sources(items) !! Targets(items)
    ensures !StillLivedIn(people, items, unit)
  {
    forall i | 0 <= i < |items| ensures items[i].source in Sources(items) && (items[i].target.Some? ==> items[i].target.value in Targets(items)) {
      assert items[i] in items;
    }
  }

  // ---------- generated structure ----------

  /** Every record of the first table is in the second as it was. */
  ghost predicate Extends<T>(before: map<Id, T>, after: map<Id, T>) {
    forall k :: k in before ==> k in after && after[k] == before[k]
  }

  lemma TakenStays(before: Units, after: Units, block: Id, name: string)
    requires Extends(before, after) && UnitNameTaken(before, block, name)
    ensures UnitNameTaken(after, block, name)
  {
  }

  lemma UnitTakenByInsert(units: Units, id: Id, block: Id, name: string)
    ensures UnitNameTaken(units[id := Unit(block, name, true)], block, name)
  {
    var after := units[id := Unit(block, name, true)];
    assert id in after && after[id] == Unit(block, name, true);
  }

  /** Only other names have been added so far. */
  lemma NotTakenYet(before: Units, now: Units, block: Id, names: seq<string>, i: nat)
    requires Extends(before, now) && Distinct(names) && i < |names| && !UnitNameTaken(before, block, names[i])
    requires forall u :: u in now && u !in before ==> now[u].name in names[..i]
    ensures !UnitNameTaken(now, block, names[i])
  {
  }

  predicate Requested(name: string, names: seq<string>) {
    exists n :: n in names && ToLower(n) == ToLower(name)
  }

  /** An inactive block has this wanted name. */
  ghost predicate PassedOver(blocks: Blocks, name: string, names: seq<string>) {
    exists b :: b in blocks && !blocks[b].isActive && blocks[b].name == name && Requested(name, names)
  }

  lemma IsPassedOver(blocks: Blocks, b: Id, names: seq<string>, i: nat)
    requires b in blocks && !blocks[b].isActive && i < |names| && ToLower(blocks[b].name) == ToLower(names[i])
    ensures PassedOver(blocks, blocks[b].name, names)
  {
    assert names[i] in names;
  }

  /** The active blocks with one of the names, each once. */
  ghost predicate ActiveAmong(blocks: Blocks, active: seq<Id>, names: seq<string>) {
    && (forall b :: b in active <==> b in blocks && blocks[b].isActive && Requested(blocks[b].name, names))
    && (forall i, j :: 0 <= i < j < |active| ==> active[i] != active[j])
  }

  lemma NoBlockAdded(blocks: Blocks, active: seq<Id>, names: seq<string>, i: nat)
    requires i < |names| && ActiveAmong(blocks, active, names[..i]) && !BlockNameTaken(blocks, names[i])
    ensures ActiveAmong(blocks, active, names[..i + 1])
  {
  }

  lemma OneBlockAdded(blocks: Blocks, active: seq<Id>, names: seq<string>, i: nat, b: Id)
    requires i < |names| && ActiveAmong(blocks, active, names[..i]) && Distinct(names) && BlockNamesUnique(blocks)
    requires b in blocks && ToLower(blocks[b].name) == ToLower(names[i])
    ensures ActiveAmong(blocks, if blocks[b].isActive then active + [b] else active, names[..i + 1])
  {
  }

  lemma AddedIsDistinct(missing: seq<string>, names: seq<string>, i: nat)
    requires Distinct(names) && Distinct(missing) && i < |names| && forall name :: name in missing ==> name in names[..i]
    ensures Distinct(missing + [names[i]])
  {
    forall k | 0 <= k < |missing| ensures ToLower(missing[k]) != ToLower(names[i]) {
      assert missing[k] in names[..i];
      var j :| 0 <= j < i && names[..i][j] == missing[k];
      assert names[j] == missing[k];
    }
  }

  /** All wanted blocks are there, and the active ones have all wanted units. */
  ghost predicate Complete(blocks: Blocks, units: Units, blockNames: seq<string>, unitNames: seq<string>) {
    && (forall name :: name in blockNames ==> BlockNameTaken(blocks, name))
    && (forall b, name :: b in blocks && blocks[b].isActive && Requested(blocks[b].name, blockNames) && name in unitNames ==>
          UnitNameTaken(units, b, name))
  }

  lemma BlockTakenStays(before: Blocks, after: Blocks, name: string)
    requires Extends(before, after) && BlockNameTaken(before, name)
    ensures BlockNameTaken(after, name)
  {
  }

  /** `created` are exactly the blocks added since, each of them once and active. */
  ghost predicate Created(before: Blocks, after: Blocks, created: seq<Id>) {
    && Extends(before, after) && |after| == |before| + |created|
    && (forall b :: b in created <==> b in after && b !in before)
    && (forall i, j :: 0 <= i < j < |created| ==> created[i] != created[j])
    && (forall b :: b in created ==> after[b] == Block(after[b].name, true, false))
  }

  /** They are one for each of the names. */
  ghost predicate Added(before: Blocks, after: Blocks, created: seq<Id>, names: seq<string>) {
    && Created(before, after, created) && |created| == |names|
    && NamesFrom(after, created, names) && AllTaken(after, names)
  }

  ghost predicate NamesFrom(blocks: Blocks, created: seq<Id>, names: seq<string>) {
    forall b :: b in created ==> b in blocks && blocks[b].name in names
  }

  ghost predicate AllTaken(blocks: Blocks, names: seq<string>) {
    forall name :: name in names ==> BlockNameTaken(blocks, name)
  }

  lemma NothingAdded(blocks: Blocks)
    ensures Added(blocks, blocks, [], [])
  {
  }

  lemma OneMoreCreated(before: Blocks, now: Blocks, created: seq<Id>, id: Id, name: string)
    requires Created(before, now, created) && id !in now
    ensures Created(before, now[id := Block(name, true, false)], created + [id])
  {
    var after, ids := now[id := Block(name, true, false)], created + [id];
    forall i, j | 0 <= i < j < |ids| ensures ids[i] != ids[j] {
      assert created[i] in created && created[i] in now;
    }
  }

  lemma NamesFromMore(now: Blocks, created: seq<Id>, names: seq<string>, id: Id, name: string)
    requires NamesFrom(now, created, names) && id !in now
    ensures NamesFrom(now[id := Block(name, true, false)], created + [id], names + [name])
  {
    var after := now[id := Block(name, true, false)];
    forall b | b in created + [id] ensures after[b].name in names + [name] {
      assert b == id || b in created;
    }
  }

  lemma AllTakenMore(now: Blocks, names: seq<string>, id: Id, name: string)
    requires AllTaken(now, names) && id !in now
    ensures AllTaken(now[id := Block(name, true, false)], names + [name])
  {
    var after := now[id := Block(name, true, false)];
    assert after[id].name == name;
    forall n | n in names + [name] ensures BlockNameTaken(after, n) {
      if n in names {
        BlockTakenStays(now, after, n);
      }
    }
  }

  lemma OneMoreAdded(before: Blocks, now: Blocks, created: seq<Id>, names: seq<string>, id: Id, name: string)
    requires Added(before, now, created, names)
    ensures id !in now ==> Added(before, now[id := Block(name, true, false)], created + [id], names + [name])
  {
    hide Created, NamesFrom, AllTaken;
    if id !in now {
      OneMoreCreated(before, now, created, id, name);
      NamesFromMore(now, created, names, id, name);
      AllTakenMore(now, names, id, name);
    }
  }

  lemma BlockNotTakenYet(before: Blocks, now: Blocks, created: seq<Id>, names: seq<string>, i: nat)
    requires i < |names| && Added(before, now, created, names[..i]) && Distinct(names) && !BlockNameTaken(before, names[i])
    ensures !BlockNameTaken(now, names[i])
  {
    forall b | b in now ensures ToLower(now[b].name) != ToLower(names[i]) {
      if b in before {
        assert now[b] == before[b];
      } else {
        assert b in created;
        var j :| 0 <= j < i && names[..i][j] == now[b].name;
      }
    }
  }

  lemma TargetsAreActive(before: Blocks, after: Blocks, active: seq<Id>, created: seq<Id>, names: seq<string>, missing: seq<string>)
    requires ActiveAmong(before, active, names) && Added(before, after, created, missing)
    requires forall name :: name in missing ==> name in names
    ensures ActiveAmong(after, active + created, names)
  {
    forall b | b in created ensures Requested(after[b].name, names) {
      assert after[b].name in names;
    }
    var targets := active + created;
    forall i, j | 0 <= i < j < |targets| ensures targets[i] != targets[j] {
      assert i < |active| ==> targets[i] in active && targets[i] in before;
      assert j >= |active| ==> targets[j] in created;
    }
  }

  lemma TakenAfter(before: Blocks, after: Blocks, names: seq<string>, missing: seq<string>)
    requires Extends(before, after)
    requires forall name :: name in names ==> BlockNameTaken(before, name) || name in missing
    requires forall name :: name in missing ==> BlockNameTaken(after, name)
    ensures forall name :: name in names ==> BlockNameTaken(after, name)
  {
  }

  lemma TargetsRequested(blocks: Blocks, targets: seq<Id>, names: seq<string>)
    requires ActiveAmong(blocks, targets, names)
    ensures forall b :: b in targets <==> b in blocks && blocks[b].isActive && Requested(blocks[b].name, names)
  {
  }

  lemma CompleteNow(blocks: Blocks, units: Units, targets: seq<Id>, blockNames: seq<string>, unitNames: seq<string>)
    requires ActiveAmong(blocks, targets, blockNames)
    requires forall name :: name in blockNames ==> BlockNameTaken(blocks, name)
    ensures Complete(blocks, units, blockNames, unitNames) <==>
            forall t, n :: t in targets && n in unitNames ==> UnitNameTaken(units, t, n)
  {
  }

  lemma IncompleteBlocks(blocks: Blocks, units: Units, blockNames: seq<string>, unitNames: seq<string>)
    requires exists name :: name in blockNames && !BlockNameTaken(blocks, name)
    ensures !Complete(blocks, units, blockNames, unitNames)
  {
  }

  lemma SomethingMissing(blocks: Blocks, names: seq<string>, missing: seq<string>)
    requires missing != [] && forall name :: name in missing ==> name in names && !BlockNameTaken(blocks, name)
    ensures exists name :: name in names && !BlockNameTaken(blocks, name)
  {
    assert missing[0] in missing;
  }

  /** Writing names into a unit's records is right exactly when they are the current ones, or nobody lives there. */
  lemma SyncRightIffCurrent(people: People, blocks: Blocks, units: Units, id: Id, blockName: string, unitName: string)
    requires id in units && units[id].block in blocks
    requires forall k :: k in people && people[k].unitId != Some(id) ==> Labelled(people[k], blocks, units)
    ensures AllLabelled(UnitRelabelled(people, id, blockName, unitName), blocks, units) <==>
            Residents(people, id) == {} || (blockName == blocks[units[id].block].name && unitName == units[id].name)
  {
    var after := UnitRelabelled(people, id, blockName, unitName);
    if AllLabelled(after, blocks, units) && Residents(people, id) != {} {
      var k :| k in Residents(people, id);
      assert Labelled(after[k], blocks, units);
    }
    forall k | k in people && (people[k].unitId == Some(id) ==> blockName == blocks[units[id].block].name && unitName == units[id].name)
      ensures Labelled(after[k], blocks, units)
    {
    }
    assert forall k :: k in people && people[k].unitId == Some(id) ==> k in Residents(people, id);
  }

  /**
   * The renaming of a unit is no transaction: it reads the name of the unit's block, and writes both names into
   * the people's records at its end. When the block is renamed in between, the records end up right exactly
   * when nobody lives in the unit or the block's name stayed the same.
   */
  lemma InterleavedRenames(people: People, blocks: Blocks, units: Units, unit: Id, blockName: string, unitName: string)
    requires AllLabelled(people, blocks, units) && unit in units && units[unit].block in blocks
    ensures var block := units[unit].block;
            var nameRead := blocks[block].name;
            var blocks', units' := blocks[block := blocks[block].(name := blockName)], units[unit := units[unit].(name := unitName)];
            var relabelled := BlockRelabelled(people, units, block, blockName);
            AllLabelled(UnitRelabelled(relabelled, unit, nameRead, unitName), blocks', units')
            <==> Residents(people, unit) == {} || blockName == nameRead
  {
    var block := units[unit].block;
    var nameRead := blocks[block].name;
    var blocks', units' := blocks[block := blocks[block].(name := blockName)], units[unit := units[unit].(name := unitName)];
    var relabelled := BlockRelabelled(people, units, block, blockName);
    BlockRenameKeepsLabels(people, blocks, units, block, blocks'[block]);
    forall k | k in relabelled && relabelled[k].unitId != Some(unit) ensures Labelled(relabelled[k], blocks', units') {
      assert Labelled(relabelled[k], blocks', units);
    }
    forall k | k in people ensures relabelled[k].unitId == people[k].unitId {
    }
    assert Residents(relabelled, unit) == Residents(people, unit);
    hide BlockRelabelled, UnitRelabelled, AllLabelled, Labelled, Residents;
    SyncRightIffCurrent(relabelled, blocks', units', unit, nameRead, unitName);
  }
}
