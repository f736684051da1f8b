/**
 The in-memory session.Store (server/internal/session/memstore/memstore.go). An expired entry is
 freed only when its ID is next used, and every buffer is copied on its way in and out.
 T is the type of one stored byte.
 */
module MemStore {
  import opened Prelude
  import opened TtlTable

  datatype StoreError = NoError | ContextDone | EmptyId | EmptyData | BadTtl

  /** Times count nanoseconds; each reading is no earlier than the one before. */
  class Clock {
    var now: int

    constructor (start: int)
      ensures now == start
    {
      now := start;
    }

    method Read() returns (t: int)
      modifies this
      ensures old(now) <= t == now
    {
      var elapsed: nat :| true;
      now := now + elapsed;
      t := now;
    }
  }

  // ---------------------------------------------------------------- calls and replies as values

  datatype Operation<T> =
    | GetData(id: string)
    | CreateEntry(id: string, data: seq<T>, ttl: int)
    | UpdateEntry(id: string, data: seq<T>, ttl: int)
    | DeleteEntry(id: string)

  datatype Reply<T> = Data(data: Option<seq<T>>) | Written(written: bool) | Deleted | Refused(err: StoreError)

  /** A call, whether its context was done, and the clock readings of its lookup and its write. */
  datatype Call<T> = Call(op: Operation<T>, contextDone: bool, looked: int, stamped: int)

  function Refusal<T>(op: Operation<T>, contextDone: bool): StoreError {
    if contextDone then ContextDone
    else match op
      case CreateEntry(id, data, ttl) =>
        if id == "" then EmptyId else if data == [] then EmptyData else if ttl <= 0 then BadTtl else NoError
      case UpdateEntry(id, data, ttl) =>
        if id == "" then EmptyId else if data == [] then EmptyData else if ttl <= 0 then BadTtl else NoError
      case _ => NoError
  }

  /** lookup: an expired entry is freed. */
  function Lookup<D>(m: Table<D>, id: string, t: int): (r: (Table<D>, Option<Entry<D>>))
    ensures r.1.Some? <==> Live(m, id, t)
    ensures forall u | u >= t :: Visible(r.0, u) == Visible(m, u)
  {
    if id !in m then (m, None)
    else if m[id].expiresAt <= t then (m - {id}, None)
    else (m, Some(m[id]))
  }

  /** What the store does with a call. */
  function LazyStep<T>(m: Table<seq<T>>, c: Call<T>): (Table<seq<T>>, Reply<T>) {
    var err := Refusal(c.op, c.contextDone);
    if err != NoError then (m, Refused(err))
    else match c.op
      case GetData(id) =>
        if id == "" then (m, Data(None))
        else
          var (m', e) := Lookup(m, id, c.looked);
          (m', Data(if e.Some? then Some(e.value.data) else None))
      case CreateEntry(id, data, ttl) =>
        var (m', e) := Lookup(m, id, c.looked);
        if e.Some? then (m', Written(false))
        else (m'[id := Entry(data, c.stamped + ttl)], Written(true))
      case UpdateEntry(id, data, ttl) =>
        var (m', e) := Lookup(m, id, c.looked);
        if e.None? then (m', Written(false))
        else (m'[id := Entry(data, c.stamped + ttl)], Written(true))
      case DeleteEntry(id) =>
        (if id == "" then m else m - {id}, Deleted)
  }

  /**
   What the contract asks of a store in which expired entries are simply absent: a plain map,
   rid of every entry that has expired by the time of the call.
   */
  function PlainStep<T>(m: Table<seq<T>>, c: Call<T>): (Table<seq<T>>, Reply<T>) {
    var plain := Visible(m, c.looked);
    var err := Refusal(c.op, c.contextDone);
    if err != NoError then (plain, Refused(err))
    else match c.op
      case GetData(id) =>
        (plain, Data(if id != "" && id in plain then Some(plain[id].data) else None))
      case CreateEntry(id, data, ttl) =>
        (if id in plain then plain else plain[id := Entry(data, c.stamped + ttl)], Written(id !in plain))
      case UpdateEntry(id, data, ttl) =>
        (if id in plain then plain[id := Entry(data, c.stamped + ttl)] else plain, Written(id in plain))
      case DeleteEntry(id) =>
        (if id == "" then plain else plain - {id}, Deleted)
  }

  // ---------------------------------------------------------------- refinement

  /** From time t on, no call can tell the two tables apart. */
  ghost predicate SameFrom<D>(m: Table<D>, n: Table<D>, t: int) {
    forall u | u >= t :: Visible(m, u) == Visible(n, u)
  }

  lemma SameAtId<D>(m: Table<D>, n: Table<D>, t: int, id: string)
    requires SameFrom(m, n, t)
    ensures Live(m, id, t) <==> Live(n, id, t)
    ensures Live(m, id, t) ==> m[id] == n[id]
  {
    assert id in Visible(m, t) <==> id in Visible(n, t);
    if Live(m, id, t) {
      assert Visible(m, t)[id] == Visible(n, t)[id];
    }
  }

  lemma VisibleWrite<D>(m: Table<D>, id: string, e: Entry<D>, u: int)
    ensures Visible(m[id := e], u) == if e.expiresAt > u then Visible(m, u)[id := e] else Visible(m, u) - {id}
    ensures Visible(m - {id}, u) == Visible(m, u) - {id}
  {
  }

  /** Writing or deleting under the same ID keeps tables alike. */
  lemma SameAfterWrite<D>(m: Table<D>, n: Table<D>, t: int, id: string, e: Entry<D>)
    requires SameFrom(m, n, t)
    ensures SameFrom(m[id := e], n[id := e], t)
    ensures SameFrom(m - {id}, n - {id}, t)
  {
    var m', n' := m[id := e], n[id := e];
    forall u | u >= t
      ensures Visible(m', u) == Visible(n', u)
      ensures Visible(m - {id}, u) == Visible(n - {id}, u)
    {
      assert Visible(m, u) == Visible(n, u);
      VisibleWrite(m, id, e, u);
      VisibleWrite(n, id, e, u);
    }
  }

  lemma StepsAgree<T>(m: Table<seq<T>>, n: Table<seq<T>>, t: int, c: Call<T>)
    requires SameFrom(m, n, t) && t <= c.looked <= c.stamped
    ensures LazyStep(m, c).1 == PlainStep(n, c).1
    ensures SameFrom(LazyStep(m, c).0, PlainStep(n, c).0, c.looked)
  {
    var id := c.op.id;
    var plain := Visible(n, c.looked);
    assert SameFrom(m, n, c.looked);
    SameAtId(m, n, c.looked, id);
    var (m', _) := Lookup(m, id, c.looked);
    assert SameFrom(m, plain, c.looked) && SameFrom(m', plain, c.looked) by {
      forall u | u >= c.looked ensures Visible(plain, u) == Visible(n, u) {
      }
    }
    var e: Entry<seq<T>> := Entry([], 0);
    if c.op.CreateEntry? || c.op.UpdateEntry? {
      e := Entry(c.op.data, c.stamped + c.op.ttl);
    }
    SameAfterWrite(m, plain, c.looked, id, e);
    SameAfterWrite(m', plain, c.looked, id, e);
  }

  /** The clock never goes back, within a call or from one call to the next. */
  ghost predicate Ordered<T>(calls: seq<Call<T>>, t: int)
    decreases |calls|
  {
    calls != [] ==> t <= calls[0].looked <= calls[0].stamped && Ordered(calls[1..], calls[0].stamped)
  }

  function LazyReplies<T>(m: Table<seq<T>>, calls: seq<Call<T>>): seq<Reply<T>>
    decreases |calls|
  {
    if calls == [] then []
    else var (m', reply) := LazyStep(m, calls[0]); [reply] + LazyReplies(m', calls[1..])
  }

  function PlainReplies<T>(m: Table<seq<T>>, calls: seq<Call<T>>): seq<Reply<T>>
    decreases |calls|
  {
    if calls == [] then []
    else var (m', reply) := PlainStep(m, calls[0]); [reply] + PlainReplies(m', calls[1..])
  }

  /** Freeing expired entries late is unobservable: any sequence of calls gets the same replies. */
  lemma {:induction false} LazyRefinesPlain<T>(m: Table<seq<T>>, n: Table<seq<T>>, calls: seq<Call<T>>, t: int)
    requires SameFrom(m, n, t) && Ordered(calls, t)
    ensures LazyReplies(m, calls) == PlainReplies(n, calls)
    decreases |calls|
  {
    if calls != [] {
      StepsAgree(m, n, t, calls[0]);
      LazyRefinesPlain(LazyStep(m, calls[0]).0, PlainStep(n, calls[0]).0, calls[1..], calls[0].stamped);
    }
  }

  /** The call as if it had happened at one instant. */
  function AtInstant<T>(c: Call<T>, t: int): Call<T> {
    c.(looked := t, stamped := t)
  }

  ghost predicate HappensAt<T>(m: Table<seq<T>>, c: Call<T>, t: int) {
    && c.looked <= t <= c.stamped
    && PlainStep(m, AtInstant(c, t)).1 == LazyStep(m, c).1
    && SameFrom(PlainStep(m, AtInstant(c, t)).0, LazyStep(m, c).0, c.stamped)
  }

  /** The entry an Update replaces expires between its two readings of the clock. */
  predicate ExpiresMidUpdate<T>(m: Table<seq<T>>, c: Call<T>) {
    && c.op.UpdateEntry?
    && Refusal(c.op, c.contextDone) == NoError
    && Live(m, c.op.id, c.looked)
    && !Live(m, c.op.id, c.stamped)
  }

  /**
   Create and Update read the clock twice, but act as if at one instant within the call, with one
   exception: an Update whose entry expires between the readings still replaces it.
   */
  lemma OneInstant<T>(m: Table<seq<T>>, c: Call<T>)
    requires c.looked <= c.stamped
    ensures (exists t :: HappensAt(m, c, t)) <==> !ExpiresMidUpdate(m, c)
  {
    var id := c.op.id;
    var created := c.op.CreateEntry? && LazyStep(m, c).1 == Written(true);
    var updated := c.op.UpdateEntry? && LazyStep(m, c).1 == Written(true);
    if ExpiresMidUpdate(m, c) {
      forall t | c.looked <= t <= c.stamped ensures !HappensAt(m, c, t) {
        if Live(m, id, t) {
          var u := c.stamped + c.op.ttl - 1;
          assert id !in Visible(PlainStep(m, AtInstant(c, t)).0, u);
          assert id in Visible(LazyStep(m, c).0, u);
        }
      }
    } else {
      var t := if created || updated then c.stamped else c.looked;
      StepsAgree(m, m, t, AtInstant(c, t));
      assert SameFrom(PlainStep(m, AtInstant(c, t)).0, LazyStep(m, AtInstant(c, t)).0, c.stamped);
      LookupTimes(m, id, c.looked, t);
      if created || updated {
        var e := Entry(c.op.data, c.stamped + c.op.ttl);
        SameAfterWrite(Lookup(m, id, c.looked).0, Lookup(m, id, t).0, c.stamped, id, e);
      }
      assert HappensAt(m, c, t);
    }
  }

  /** Such an Update exists: its entry expires at 5, and it looks at 3 and writes at 6. */
  lemma UpdateCanOutliveItsEntry()
    ensures var m := map["a" := Entry([0], 5)];
            var c := Call(UpdateEntry("a", [1], 10), false, 3, 6);
            && ExpiresMidUpdate(m, c) && LazyStep(m, c) == (map["a" := Entry([1], 16)], Written(true))
            && !exists t :: HappensAt(m, c, t)
  {
    var m := map["a" := Entry([0], 5)];
    var c := Call(UpdateEntry("a", [1], 10), false, 3, 6);
    OneInstant(m, c);
    assert Lookup(m, "a", 3) == (m, Some(Entry([0], 5)));
    assert LazyStep(m, c).0 == m["a" := Entry([1], 16)] == map["a" := Entry([1], 16)];
  }

  lemma LookupTimes<D>(m: Table<D>, id: string, t: int, u: int)
    requires t <= u
    ensures SameFrom(Lookup(m, id, t).0, Lookup(m, id, u).0, u)
  {
  }

  // ---------------------------------------------------------------- what a call comes to

  /** A call is refused exactly when its context is done or it writes with an empty ID, no data or no time to live. */
  lemma RefusedExactly<T>(m: Table<seq<T>>, c: Call<T>)
    ensures LazyStep(m, c).1.Refused?
            <==> c.contextDone || ((c.op.CreateEntry? || c.op.UpdateEntry?)
                                   && (c.op.id == "" || c.op.data == [] || c.op.ttl <= 0))
    ensures LazyStep(m, c).1.Refused? ==> LazyStep(m, c).0 == m
    ensures c.contextDone ==> LazyStep(m, c).1 == Refused(ContextDone)
  {
  }

  /** Unless refused, Create writes exactly when its ID has no live entry, and Update exactly when it has one. */
  lemma WritesExactly<T>(m: Table<seq<T>>, c: Call<T>)
    requires (c.op.CreateEntry? || c.op.UpdateEntry?) && !LazyStep(m, c).1.Refused?
    ensures LazyStep(m, c).1 == Written(Live(m, c.op.id, c.looked) == c.op.UpdateEntry?)
    ensures LazyStep(m, c).1 == Written(false) ==> SameFrom(LazyStep(m, c).0, m, c.looked)
  {
  }

  /** What a call wrote is read back until its TTL is over, and then it is gone; other IDs keep their entries. */
  lemma WrittenIsReadBack<T>(m: Table<seq<T>>, c: Call<T>, get: Call<T>)
    requires (c.op.CreateEntry? || c.op.UpdateEntry?) && LazyStep(m, c).1 == Written(true)
    requires get.op.GetData? && !get.contextDone && c.looked <= c.stamped <= get.looked
    ensures var m' := LazyStep(m, c).0;
            LazyStep(m', get).1
            == if get.op.id != c.op.id then LazyStep(m, get).1
               else Data(if get.looked < c.stamped + c.op.ttl then Some(c.op.data) else None)
  {
  }

  /** A deleted entry is gone, and no other. */
  lemma DeletedIsGone<T>(m: Table<seq<T>>, c: Call<T>, get: Call<T>)
    requires c.op.DeleteEntry? && !c.contextDone && get.op.GetData? && !get.contextDone
    ensures LazyStep(m, c).1 == Deleted
    ensures LazyStep(LazyStep(m, c).0, get).1 == if get.op.id == c.op.id then Data(None) else LazyStep(m, get).1
  {
  }

  // ---------------------------------------------------------------- the store itself

  datatype Slot<T> = Slot(data: array<T>, expiresAt: int)

  /** A fresh copy of a buffer. */
  method Clone<T>(data: array<T>) returns (copy: array<T>)
    ensures fresh(copy) && copy[..] == data[..]
  {
    copy := new T[data.Length](i requires 0 <= i < data.Length reads data => data[i]);
  }

  /**
   The contracts below equate the new contents and the reply with LazyStep. Buffers the store
   comes to hold, and buffers it hands out, are always new, so no caller shares one with it.
   */
  class Store<T> {
    var entries: map<string, Slot<T>>
    const clock: Clock

    constructor (clock: Clock)
      ensures Contents() == map[] && this.clock == clock
    {
      entries := map[];
      this.clock := clock;
    }

    ghost function Buffers(): set<array<T>>
      reads this
    {
      set id | id in entries :: entries[id].data
    }

    /** What is stored, free of the buffers it is stored in. */
    ghost function Contents(): Table<seq<T>>
      reads this, Buffers()
    {
      map id | id in entries :: Entry(entries[id].data[..], entries[id].expiresAt)
    }

    method Find(id: string) returns (found: Option<Slot<T>>)
      modifies this, clock
      ensures Buffers() <= old(Buffers()) && clock.now >= old(clock.now)
      ensures Contents() == Lookup(old(Contents()), id, clock.now).0
      ensures found.Some? <==> Lookup(old(Contents()), id, clock.now).1.Some?
      ensures found.Some? ==> id in entries && entries[id] == found.value
    {
      if id !in entries {
        return None;
      }
      var e := entries[id];
      var t := clock.Read();
      if e.expiresAt <= t {
        entries := entries - {id};
        return None;
      }
      return Some(e);
    }

    method Get(contextDone: bool, id: string) returns (data: array?<T>, err: StoreError, ghost call: Call<T>)
      modifies this, clock
      ensures call == Call(GetData(id), contextDone, clock.now, clock.now) && clock.now >= old(clock.now)
      ensures LazyStep(old(Contents()), call)
              == (Contents(),
                  if err != NoError then Refused(err) else Data(if data == null then None else Some(data[..])))
      ensures data != null ==> fresh(data) && data !in Buffers()
      ensures Buffers() <= old(Buffers())
    {
      data, err := null, NoError;
      if contextDone {
        err := ContextDone;
      } else if id != "" {
        var found := Find(id);
        if found.Some? {
          data := Clone(found.value.data);
        }
      }
      call := Call(GetData(id), contextDone, clock.now, clock.now);
    }

    method Put(id: string, data: array<T>, ttl: int)
      modifies this, clock
      ensures Contents() == old(Contents())[id := Entry(old(data[..]), clock.now + ttl)]
      ensures fresh(Buffers() - old(Buffers())) && clock.now >= old(clock.now)
    {
      var copy := Clone(data);
      var t := clock.Read();
      entries := entries[id := Slot(copy, t + ttl)];
    }

    method Create(contextDone: bool, id: string, data: array<T>, ttl: int)
      returns (created: bool, err: StoreError, ghost call: Call<T>)
      modifies this, clock
      ensures call.op == CreateEntry(id, old(data[..]), ttl) && call.contextDone == contextDone
      ensures old(clock.now) <= call.looked <= call.stamped == clock.now
      ensures LazyStep(old(Contents()), call)
              == (Contents(), if err != NoError then Refused(err) else Written(created))
      ensures fresh(Buffers() - old(Buffers())) && (data !in old(Buffers()) ==> data !in Buffers())
    {
      created, err := false, NoError;
      ghost var looked := clock.now;
      if contextDone {
        err := ContextDone;
      } else if id == "" {
        err := EmptyId;
      } else if data.Length == 0 {
        err := EmptyData;
      } else if ttl <= 0 {
        err := BadTtl;
      } else {
        var found := Find(id);
        looked := clock.now;
        if found.None? {
          Put(id, data, ttl);
          created := true;
        }
      }
      call := Call(CreateEntry(id, data[..], ttl), contextDone, looked, clock.now);
    }

    method Update(contextDone: bool, id: string, data: array<T>, ttl: int)
      returns (updated: bool, err: StoreError, ghost call: Call<T>)
      modifies this, clock
      ensures call.op == UpdateEntry(id, old(data[..]), ttl) && call.contextDone == contextDone
      ensures old(clock.now) <= call.looked <= call.stamped == clock.now
      ensures LazyStep(old(Contents()), call)
              == (Contents(), if err != NoError then Refused(err) else Written(updated))
      ensures fresh(Buffers() - old(Buffers())) && (data !in old(Buffers()) ==> data !in Buffers())
    {
      updated, err := false, NoError;
      ghost var looked := clock.now;
      if contextDone {
        err := ContextDone;
      } else if id == "" {
        err := EmptyId;
      } else if data.Length == 0 {
        err := EmptyData;
      } else if ttl <= 0 {
        err := BadTtl;
      } else {
        var found := Find(id);
        looked := clock.now;
        if found.Some? {
          Put(id, data, ttl);
          updated := true;
        }
      }
      call := Call(UpdateEntry(id, data[..], ttl), contextDone, looked, clock.now);
    }

    method Delete(contextDone: bool, id: string) returns (err: StoreError, ghost call: Call<T>)
      modifies this
      ensures call == Call(DeleteEntry(id), contextDone, clock.now, clock.now)
      ensures LazyStep(old(Contents()), call)
              == (Contents(), if err != NoError then Refused(err) else Deleted)
      ensures Buffers() <= old(Buffers())
    {
      err := NoError;
      if contextDone {
        err := ContextDone;
      } else if id != "" {
        entries := entries - {id};
        assert Contents() == old(Contents()) - {id};
      }
      call := Call(DeleteEntry(id), contextDone, clock.now, clock.now);
    }
  }

  // ---------------------------------------------------------------- callers share no buffer with the store

  /** What a caller writes to a buffer it passed to Create does not change what is stored. */
  method OverwritePassed<T>(store: Store<T>, contextDone: bool, id: string, data: array<T>, ttl: int, later: array<T>)
    returns (created: bool, err: StoreError, ghost call: Call<T>)
    requires data !in store.Buffers() && later.Length == data.Length && later != data
    modifies store, store.clock, data
    ensures data !in store.Buffers() && data[..] == later[..]
    ensures call.op == CreateEntry(id, old(data[..]), ttl) && call.contextDone == contextDone
    ensures LazyStep(old(store.Contents()), call)
            == (store.Contents(), if err != NoError then Refused(err) else Written(created))
  {
    created, err, call := store.Create(contextDone, id, data, ttl);
    ghost var stored := store.Contents();
    Overwrite(data, later);
    assert store.Contents() == stored;
  }

  /** The same for Update. */
  method OverwriteUpdated<T>(store: Store<T>, contextDone: bool, id: string, data: array<T>, ttl: int, later: array<T>)
    returns (updated: bool, err: StoreError, ghost call: Call<T>)
    requires data !in store.Buffers() && later.Length == data.Length && later != data
    modifies store, store.clock, data
    ensures data !in store.Buffers() && data[..] == later[..]
    ensures call.op == UpdateEntry(id, old(data[..]), ttl) && call.contextDone == contextDone
    ensures LazyStep(old(store.Contents()), call)
            == (store.Contents(), if err != NoError then Refused(err) else Written(updated))
  {
    updated, err, call := store.Update(contextDone, id, data, ttl);
    ghost var stored := store.Contents();
    Overwrite(data, later);
    assert store.Contents() == stored;
  }

  /** What it writes to a buffer that Get handed out does not either. */
  method OverwriteReturned<T>(store: Store<T>, contextDone: bool, id: string, later: array<T>)
    returns (data: array?<T>, err: StoreError, ghost call: Call<T>)
    modifies store, store.clock
    ensures call.op == GetData(id) && call.contextDone == contextDone
    ensures store.Contents() == LazyStep(old(store.Contents()), call).0
    ensures data != null ==> data !in store.Buffers()
    ensures data != null && data.Length == later.Length ==> data[..] == later[..]
  {
    data, err, call := store.Get(contextDone, id);
    ghost var stored := store.Contents();
    if data != null && data.Length == later.Length {
      Overwrite(data, later);
    }
    assert store.Contents() == stored;
  }

  method Overwrite<T>(data: array<T>, later: array<T>)
    requires later.Length == data.Length && later != data
    modifies data
    ensures data[..] == later[..]
  {
    for i := 0 to data.Length
      invariant data[..i] == later[..i]
    {
      data[i] := later[i];
      assert data[..i + 1] == data[..i] + [data[i]] && later[..i + 1] == later[..i] + [later[i]];
    }
    assert data[..data.Length] == data[..] && later[..later.Length] == later[..];
  }
}
