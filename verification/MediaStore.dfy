/** The gateway's picture store: entries live for a fixed time, and the oldest makes room when the store is full. */
module MediaStore {
  import opened Wrappers

  type Id = string

  const MAX_ENTRIES: nat := 200

  datatype Item<T> = Item(bytes: T, expiresAt: int)

  /** One call of `Put`, in the order in which the calls got the lock. */
  datatype Stored<T> = Stored(id: Id, bytes: T, at: int)

  /** Ids are fresh and the clock strictly increases from one call to the next. */
  ghost predicate Orderly<T>(puts: seq<Stored<T>>) {
    forall i, j :: 0 <= i < j < |puts| ==> puts[i].id != puts[j].id && puts[i].at < puts[j].at
  }

  /** Entries that come from different calls between two bounds are at most as many as lie between them. */
  lemma {:induction false} AtMostBetween<T>(puts: seq<Stored<T>>, from: map<Id, nat>, lo: nat, hi: nat)
    requires forall id :: id in from ==> lo <= from[id] < hi <= |puts| && puts[from[id]].id == id
    ensures from != map[] ==> |from| <= hi - lo
    decreases hi
  {
    if from != map[] {
      var some :| some in from;
      assert lo < hi;
      var last := puts[hi - 1].id;
      var rest := from - {last};
      if last in from {
        OneSmaller(from, last);
      } else {
        assert rest == from;
      }
      forall id | id in rest ensures lo <= rest[id] < hi - 1 && puts[rest[id]].id == id {
        assert rest[id] == from[id] && (from[id] == hi - 1 ==> id == last);
      }
      AtMostBetween(puts, rest, lo, hi - 1);
    }
  }

  /** The i-th call is the last one for this id. */
  ghost predicate LastFor<T>(puts: seq<Stored<T>>, i: int, id: Id) {
    0 <= i < |puts| && puts[i].id == id && forall j :: i < j < |puts| ==> puts[j].id != id
  }

  /** Every entry is the one of the last call for its id. */
  ghost predicate Holds<T>(ttl: int, items: map<Id, Item<T>>, puts: seq<Stored<T>>, from: map<Id, nat>) {
    && items.Keys == from.Keys
    && forall id :: id in from ==>
         LastFor(puts, from[id], id) && items[id] == Item(puts[from[id]].bytes, puts[from[id]].at + ttl)
  }

  /** The entry of the i-th call is there, or its time is over. */
  ghost predicate Kept<T>(ttl: int, puts: seq<Stored<T>>, from: map<Id, nat>, clock: int, i: nat)
    requires i < |puts|
  {
    (puts[i].id in from && from[puts[i].id] == i) || puts[i].at + ttl <= clock
  }

  /** In an orderly history, the entries of the last `n` calls are there until their time is over. */
  ghost predicate Keeps<T>(ttl: int, puts: seq<Stored<T>>, from: map<Id, nat>, clock: int, n: nat) {
    Orderly(puts) ==> forall i :: 0 <= i < |puts| && |puts| - i <= n ==> Kept(ttl, puts, from, clock, i)
  }

  lemma RemoveHolds<T>(ttl: int, items: map<Id, Item<T>>, puts: seq<Stored<T>>, from: map<Id, nat>, gone: set<Id>)
    requires Holds(ttl, items, puts, from)
    ensures Holds(ttl, items - gone, puts, from - gone)
  {
    hide LastFor;
  }

  /** Removing entries whose time is over takes nothing that was to be kept. */
  lemma ExpiryKeeps<T>(
    ttl: int, items: map<Id, Item<T>>, puts: seq<Stored<T>>, from: map<Id, nat>, gone: set<Id>, clock: int, now: int, n: nat)
    requires Holds(ttl, items, puts, from) && Keeps(ttl, puts, from, clock, n) && clock <= now
    requires forall id :: id in gone ==> id in items && items[id].expiresAt <= now
    ensures Keeps(ttl, puts, from - gone, now, n)
  {
    if Orderly(puts) {
      hide Orderly;
      forall i | 0 <= i < |puts| && |puts| - i <= n ensures Kept(ttl, puts, from - gone, now, i) {
        assert Kept(ttl, puts, from, clock, i);
      }
    }
  }

  function Later(a: int, b: int): int {
    if a < b then b else a
  }

  /** No entry expires before this one. */
  ghost predicate ExpiresFirst<T>(items: map<Id, Item<T>>, oldest: Id) {
    oldest in items && forall id :: id in items ==> items[oldest].expiresAt <= items[id].expiresAt
  }

  /** The table as it is before an insertion. */
  ghost predicate HasRoom<T>(ttl: int, items: map<Id, Item<T>>, puts: seq<Stored<T>>, from: map<Id, nat>, clock: int) {
    |items| < MAX_ENTRIES && Holds(ttl, items, puts, from) && Keeps(ttl, puts, from, clock, MAX_ENTRIES - 1)
  }

  /** Making room takes an entry after whose call at least 199 others came. */
  lemma EvictionKeeps<T>(ttl: int, items: map<Id, Item<T>>, puts: seq<Stored<T>>, from: map<Id, nat>, oldest: Id, clock: int)
    requires Holds(ttl, items, puts, from) && Keeps(ttl, puts, from, clock, MAX_ENTRIES) && |items| == MAX_ENTRIES
    requires ExpiresFirst(items, oldest)
    ensures HasRoom(ttl, items - {oldest}, puts, from - {oldest}, clock)
  {
    RemoveHolds(ttl, items, puts, from, {oldest});
    OneSmaller(items, oldest);
    if Orderly(puts) {
      forall id | id in from ensures from[oldest] <= from[id] < |puts| && puts[from[id]].id == id {
        assert LastFor(puts, from[id], id) && LastFor(puts, from[oldest], oldest);
      }
      assert |items.Keys| == |from.Keys|;
      AtMostBetween(puts, from, from[oldest], |puts|);
      forall i | 0 <= i < |puts| && |puts| - i <= MAX_ENTRIES - 1 ensures Kept(ttl, puts, from - {oldest}, clock, i) {
        assert Kept(ttl, puts, from, clock, i);
      }
    }
  }

  lemma InsertHolds<T>(ttl: int, items: map<Id, Item<T>>, puts: seq<Stored<T>>, from: map<Id, nat>, put: Stored<T>)
    requires Holds(ttl, items, puts, from)
    ensures Holds(ttl, items[put.id := Item(put.bytes, put.at + ttl)], puts + [put], from[put.id := |puts|])
  {
    var more, from' := puts + [put], from[put.id := |puts|];
    forall id | id in from' ensures LastFor(more, from'[id], id) {
      if id != put.id {
        assert LastFor(puts, from[id], id);
      }
    }
    forall id | id in from ensures more[from[id]] == puts[from[id]] {
      assert LastFor(puts, from[id], id);
    }
  }

  lemma InsertKeeps<T>(ttl: int, puts: seq<Stored<T>>, from: map<Id, nat>, clock: int, put: Stored<T>)
    requires Keeps(ttl, puts, from, clock, MAX_ENTRIES - 1)
    ensures Keeps(ttl, puts + [put], from[put.id := |puts|], clock, MAX_ENTRIES)
  {
    var more, from' := puts + [put], from[put.id := |puts|];
    if Orderly(more) {
      forall i, j | 0 <= i < j < |puts| ensures puts[i].id != puts[j].id && puts[i].at < puts[j].at {
        assert more[i] == puts[i] && more[j] == puts[j];
      }
      forall i | 0 <= i < |more| && |more| - i <= MAX_ENTRIES
        ensures Kept(ttl, more, from', clock, i)
      {
        if i < |puts| {
          assert Kept(ttl, puts, from, clock, i);
          assert more[i].id != more[|puts|].id;
        }
      }
    }
  }

  class Store<T(==)> {
    const ttl: int
    var items: map<Id, Item<T>>
    ghost var puts: seq<Stored<T>>
    /** The call an entry is from. */
    ghost var from: map<Id, nat>
    /** Latest clock value seen. */
    ghost var clock: int

    ghost predicate Valid()
      reads this
    {
      |items| <= MAX_ENTRIES && Holds(ttl, items, puts, from) && Keeps(ttl, puts, from, clock, MAX_ENTRIES)
    }

    constructor (ttl: int)
      ensures Valid() && puts == [] && this.ttl == ttl
    {
      this.ttl := ttl;
      items, puts, from, clock := map[], [], map[], 0;
    }

    /** Calls read the clock before they get the lock, so `now` may be earlier than that of the call before. */
    method Put(id: Id, bytes: T, now: int)
      requires Valid()
      modifies this
      ensures Valid() && clock == Later(old(clock), now)
      ensures puts == old(puts) + [Stored(id, bytes, now)]
      ensures id in items && items[id] == Item(bytes, now + ttl)
    {
      hide Holds, Keeps;
      RemoveExpired(now);
      MakeRoom();
      ghost var put := Stored(id, bytes, now);
      InsertHolds(ttl, items, puts, from, put);
      InsertKeeps(ttl, puts, from, clock, put);
      OneLarger(items, id, Item(bytes, now + ttl));
      items := items[id := Item(bytes, now + ttl)];
      from := from[id := |puts|];
      puts := puts + [put];
    }

    /** A full store drops an entry that expires first. */
    method MakeRoom()
      requires Valid()
      modifies this`items, this`from
      ensures HasRoom(ttl, items, puts, from, clock)
      ensures |old(items)| < MAX_ENTRIES ==> items == old(items)
      ensures |old(items)| >= MAX_ENTRIES ==> exists oldest :: ExpiresFirst(old(items), oldest) && items == old(items) - {oldest}
    {
      if |items| >= MAX_ENTRIES {
        EvictOldest();
      } else {
        FewerKept(ttl, puts, from, clock);
      }
    }

    /** The entry that expires first goes. */
    method EvictOldest()
      requires Valid() && |items| >= MAX_ENTRIES
      modifies this`items, this`from
      ensures HasRoom(ttl, items, puts, from, clock)
      ensures exists oldest :: ExpiresFirst(old(items), oldest) && items == old(items) - {oldest}
    {
      hide Holds, Keeps, ExpiresFirst, HasRoom;
      var oldest := FindOldest();
      EvictionKeeps(ttl, items, puts, from, oldest, clock);
      items := items - {oldest};
      from := from - {oldest};
    }

    /** Drops every entry whose time is over. */
    method RemoveExpired(now: int)
      requires Valid()
      modifies this`items, this`from, this`clock
      ensures Valid() && clock == Later(old(clock), now)
      ensures items == map id | id in old(items) && now < old(items)[id].expiresAt :: old(items)[id]
    {
      hide Holds, Keeps;
      var expired := set id | id in items && items[id].expiresAt <= now;
      RemoveHolds(ttl, items, puts, from, expired);
      ExpiryKeeps(ttl, items, puts, from, expired, clock, Later(clock, now), MAX_ENTRIES);
      Smaller(items, expired);
      items := items - expired;
      from := from - expired;
      clock := Later(clock, now);
    }

    /** An entry with the least expiry time. */
    method FindOldest() returns (oldest: Id)
      requires |items| > 0
      ensures ExpiresFirst(items, oldest)
    {
      assert items != map[];
      oldest :| oldest in items;
      var rest := items.Keys - {oldest};
      while rest != {}
        invariant rest <= items.Keys && oldest in items
        invariant forall id :: id in items && id !in rest ==> items[oldest].expiresAt <= items[id].expiresAt
        decreases rest
      {
        var id :| id in rest;
        if items[id].expiresAt < items[oldest].expiresAt {
          oldest := id;
        }
        rest := rest - {id};
      }
    }

    method Get(id: Id, now: int) returns (r: Option<T>)
      requires Valid()
      modifies this
      ensures Valid() && puts == old(puts)
      ensures Answers(r, ttl, puts, id, old(clock), now)
    {
      hide Holds, Keeps, Answers;
      LookupAnswers(ttl, items, puts, from, clock, id, now);
      if id !in items {
        return None;
      }
      var item := items[id];
      if item.expiresAt > now {
        return Some(item.bytes);
      }
      RemoveHolds(ttl, items, puts, from, {id});
      ExpiryKeeps(ttl, items, puts, from, {id}, clock, Later(clock, now), MAX_ENTRIES);
      Smaller(items, {id});
      items := items - {id};
      from := from - {id};
      clock := Later(clock, now);
      return None;
    }
  }

  /**
   * An answer is the bytes stored last under the id while their time is not over. In an orderly history they
   * are there unless 200 later entries were stored, or their time was already over for an earlier call whose
   * clock was ahead.
   */
  ghost predicate Answers<T>(r: Option<T>, ttl: int, puts: seq<Stored<T>>, id: Id, clock: int, now: int) {
    && (r.Some? ==> exists i :: LastFor(puts, i, id) && puts[i].bytes == r.value && now < puts[i].at + ttl)
    && (Orderly(puts) ==> forall i :: LastFor(puts, i, id) && |puts| - i <= MAX_ENTRIES ==>
          && (Later(clock, now) < puts[i].at + ttl ==> r == Some(puts[i].bytes))
          && (puts[i].at + ttl <= now ==> r == None))
  }

  lemma OneLarger<T>(items: map<Id, Item<T>>, id: Id, item: Item<T>)
    ensures |items[id := item]| <= |items| + 1
  {
    assert items[id := item].Keys == items.Keys + {id};
  }

  lemma OneSmaller<V>(items: map<Id, V>, id: Id)
    requires id in items
    ensures |items - {id}| == |items| - 1
  {
    assert items.Keys == (items - {id}).Keys + {id};
  }

  lemma Smaller<T>(items: map<Id, Item<T>>, gone: set<Id>)
    ensures |items - gone| <= |items|
  {
    assert (items - gone).Keys <= items.Keys;
    Subset((items - gone).Keys, items.Keys);
  }

  lemma {:induction false} Subset(a: set<Id>, b: set<Id>)
    requires a <= b
    ensures |a| <= |b|
  {
    assert b == a + (b - a);
  }

  lemma FewerKept<T>(ttl: int, puts: seq<Stored<T>>, from: map<Id, nat>, clock: int)
    requires Keeps(ttl, puts, from, clock, MAX_ENTRIES)
    ensures Keeps(ttl, puts, from, clock, MAX_ENTRIES - 1)
  {
  }

  lemma LookupAnswers<T>(
    ttl: int, items: map<Id, Item<T>>, puts: seq<Stored<T>>, from: map<Id, nat>, clock: int, id: Id, now: int)
    requires Holds(ttl, items, puts, from) && Keeps(ttl, puts, from, clock, MAX_ENTRIES)
    ensures Answers(if id in items && items[id].expiresAt > now then Some(items[id].bytes) else None, ttl, puts, id, clock, now)
  {
    if id in items {
      assert LastFor(puts, from[id], id);
    }
    if Orderly(puts) {
      forall i | LastFor(puts, i, id) && |puts| - i <= MAX_ENTRIES
        ensures (id in items && from[id] == i) || puts[i].at + ttl <= clock
      {
        assert Kept(ttl, puts, from, clock, i);
      }
      OneLast(puts, id);
    }
  }

  lemma OneLast<T>(puts: seq<Stored<T>>, id: Id)
    ensures forall i, j :: LastFor(puts, i, id) && LastFor(puts, j, id) ==> i == j
  {
  }
}
