/**
 The bounded session store: a hash map with recency stamps, an LRU cap and one file per session
 for restarts. The class works on stamps like the source; its ghost `order` is the list of
 sessions from most to least recently used, and each method is tied to a function on that list,
 the sessions and the files.
 */
module SessionStore {
  import opened Wrappers
  import ReadBack

  /** The stored `initialize` parameters. */
  type Params = string

  /** A session file: parseable or not. */
  datatype File = Good(params: Params) | Corrupt

  const MAX_SESSIONS: nat := 8192

  const U64_MAX: nat := 0xFFFF_FFFF_FFFF_FFFF

  /** Ids that are safe as a file name. */
  predicate Safe(id: string)
  {
    id != [] && forall i | 0 <= i < |id| ::
      ('a' <= id[i] <= 'z') || ('A' <= id[i] <= 'Z') || ('0' <= id[i] <= '9') || id[i] == '-' || id[i] == '_'
  }

  /** In other words: letters, digits, hyphens and underscores, and at least one of them. */
  lemma SafeIff(id: string)
    ensures Safe(id) <==> id != [] && forall i | 0 <= i < |id| ::
              id[i] in ReadBack.LOWER || id[i] in ReadBack.UPPER || id[i] in ReadBack.DIGITS || id[i] in ['-', '_']
  {
    forall i | 0 <= i < |id|
      ensures 'a' <= id[i] <= 'z' <==> id[i] in ReadBack.LOWER
      ensures 'A' <= id[i] <= 'Z' <==> id[i] in ReadBack.UPPER
      ensures '0' <= id[i] <= '9' <==> id[i] in ReadBack.DIGITS
    {
      ReadBack.LowerIff(id[i]);
      ReadBack.UpperIff(id[i]);
      ReadBack.DigitIff(id[i]);
    }
  }

  // ── The list view ─────────────────────────────────────────────────────────

  /** `order` is most recent first, `mem` what is in memory, `disk` the session directory if
      there is one. */
  datatype View = View(order: seq<string>, mem: map<string, Params>, disk: Option<map<string, File>>)

  function Without(order: seq<string>, id: string): (r: seq<string>)
    ensures |r| <= |order|
    ensures forall x :: x in r <==> x in order && x != id
  {
    if order == [] then []
    else if order[0] == id then Without(order[1..], id)
    else [order[0]] + Without(order[1..], id)
  }

  function ToFront(order: seq<string>, id: string): seq<string>
  {
    [id] + Without(order, id)
  }

  /** The sessions that go when one more has to fit. */
  function Victims(order: seq<string>): seq<string>
  {
    if |order| >= MAX_SESSIONS then order[MAX_SESSIONS - 1..] else []
  }

  function FromDisk(v: View, id: string): Option<Params>
  {
    if v.disk.Some? && Safe(id) && id in v.disk.value && v.disk.value[id].Good?
    then Some(v.disk.value[id].params) else None
  }

  function DropFiles(v: View, ids: set<string>): View
  {
    if v.disk.None? then v
    else v.(disk := Some(map id | id in v.disk.value && !(id in ids && Safe(id)) :: v.disk.value[id]))
  }

  /** Memory after evicting to the cap. */
  function Evicted(v: View): View
  {
    var gone := set id | id in Victims(v.order);
    View(v.order[..|v.order| - |Victims(v.order)|], v.mem - gone, v.disk)
  }

  function WithoutTail(v: View): View
    requires v.order != []
  {
    v.(order := v.order[..|v.order| - 1], mem := v.mem - {v.order[|v.order| - 1]})
  }

  /** At most one session goes, and it is the tail. */
  lemma EvictedCases(v: View)
    requires |v.order| <= MAX_SESSIONS
    ensures |v.order| < MAX_SESSIONS ==> Evicted(v) == v && Victims(v.order) == []
    ensures |v.order| == MAX_SESSIONS ==>
              Evicted(v) == WithoutTail(v) && Victims(v.order) == [v.order[|v.order| - 1]]
  {
    if |v.order| < MAX_SESSIONS {
      assert v.order[..|v.order|] == v.order;
    } else {
      assert (set id | id in Victims(v.order)) == {v.order[|v.order| - 1]};
    }
  }

  function Load(v: View, id: string): (View, Option<Params>)
  {
    if id in v.mem then (v.(order := ToFront(v.order, id)), Some(v.mem[id]))
    else if FromDisk(v, id).None? then (v, None)
    else
      var params := FromDisk(v, id).value;
      var e := Evicted(v);
      (DropFiles(View(ToFront(e.order, id), e.mem[id := params], v.disk), set x | x in Victims(v.order)), Some(params))
  }

  function Store(v: View, id: string, params: Params): View
  {
    var gone := if id in v.mem then {} else set x | x in Victims(v.order);
    var e := if id in v.mem then v else Evicted(v);
    var disk := if v.disk.Some? && Safe(id) then Some(v.disk.value[id := Good(params)]) else v.disk;
    DropFiles(View(ToFront(e.order, id), e.mem[id := params], disk), gone)
  }

  /** `delete` releases the lock after dropping the entry and removes the file afterwards. */
  function DeleteEntry(v: View, id: string): View
  {
    v.(order := Without(v.order, id), mem := v.mem - {id})
  }

  function Delete(v: View, id: string): View
  {
    DropFiles(DeleteEntry(v, id), {id})
  }

  /** A new process over the same directory. */
  function Restart(v: View): View
  {
    View([], map[], v.disk)
  }

  // ── The stamped map ───────────────────────────────────────────────────────

  datatype Entry = Entry(params: Params, lastUsed: nat)

  /** `order` lists exactly the sessions, by strictly falling stamp, all at most `bound`. */
  ghost predicate Ordered(order: seq<string>, sessions: map<string, Entry>, bound: int)
  {
    if order == [] then sessions == map[]
    else
      && order[0] in sessions
      && sessions[order[0]].lastUsed <= bound
      && Ordered(order[1..], sessions - {order[0]}, sessions[order[0]].lastUsed - 1)
  }

  ghost function ParamsOf(sessions: map<string, Entry>): map<string, Params>
  {
    map id | id in sessions :: sessions[id].params
  }

  lemma ParamsOfUpdate(sessions: map<string, Entry>, id: string, e: Entry)
    ensures ParamsOf(sessions[id := e]) == ParamsOf(sessions)[id := e.params]
    ensures ParamsOf(sessions - {id}) == ParamsOf(sessions) - {id}
  {}

  lemma {:induction false} OrderedFacts(order: seq<string>, sessions: map<string, Entry>, bound: int)
    requires Ordered(order, sessions, bound)
    ensures forall id :: id in sessions <==> id in order
    ensures forall id | id in sessions :: sessions[id].lastUsed <= bound
    ensures |sessions| == |order|
  {
    if order != [] {
      var rest := sessions - {order[0]};
      OrderedFacts(order[1..], rest, sessions[order[0]].lastUsed - 1);
      assert rest.Keys == sessions.Keys - {order[0]};
      assert sessions.Keys == rest.Keys + {order[0]};
      assert |sessions| == |sessions.Keys| && |rest| == |rest.Keys|;
      forall id | id in sessions ensures sessions[id].lastUsed <= bound {
        if id != order[0] { assert id in rest && rest[id] == sessions[id]; }
      }
    }
  }

  lemma OrderedWeaken(order: seq<string>, sessions: map<string, Entry>, bound: int, wider: int)
    requires Ordered(order, sessions, bound) && bound <= wider
    ensures Ordered(order, sessions, wider)
  {}

  lemma {:induction false} WithoutAbsent(order: seq<string>, id: string)
    requires id !in order
    ensures Without(order, id) == order
  {
    if order != [] { WithoutAbsent(order[1..], id); }
  }

  lemma WithoutHead(order: seq<string>, sessions: map<string, Entry>, bound: int)
    requires Ordered(order, sessions, bound) && order != []
    ensures Without(order, order[0]) == order[1..]
    ensures Ordered(order[1..], sessions - {order[0]}, bound)
  {
    OrderedFacts(order[1..], sessions - {order[0]}, sessions[order[0]].lastUsed - 1);
    WithoutAbsent(order[1..], order[0]);
    OrderedWeaken(order[1..], sessions - {order[0]}, sessions[order[0]].lastUsed - 1, bound);
  }

  lemma {:induction false} WithoutOrdered(order: seq<string>, sessions: map<string, Entry>, bound: int, id: string)
    requires Ordered(order, sessions, bound)
    ensures Ordered(Without(order, id), sessions - {id}, bound)
  {
    if order == [] {
      assert sessions - {id} == map[];
    } else if order[0] == id {
      WithoutHead(order, sessions, bound);
    } else {
      var head, rest := order[0], sessions - {order[0]};
      WithoutOrdered(order[1..], rest, sessions[head].lastUsed - 1, id);
      assert rest - {id} == (sessions - {id}) - {head};
      assert ([head] + Without(order[1..], id))[1..] == Without(order[1..], id);
    }
  }

  lemma {:induction false} WithoutSize(order: seq<string>, sessions: map<string, Entry>, bound: int, id: string)
    requires Ordered(order, sessions, bound)
    ensures |Without(order, id)| == if id in order then |order| - 1 else |order|
  {
    if order != [] {
      if order[0] == id {
        WithoutHead(order, sessions, bound);
      } else {
        WithoutSize(order[1..], sessions - {order[0]}, sessions[order[0]].lastUsed - 1, id);
      }
    }
  }

  /** Giving a session a stamp above all others moves it to the front. */
  lemma ToFrontOrdered(order: seq<string>, sessions: map<string, Entry>, bound: int, id: string, e: Entry)
    requires Ordered(order, sessions, bound) && bound < e.lastUsed
    ensures Ordered(ToFront(order, id), sessions[id := e], e.lastUsed)
    ensures |ToFront(order, id)| == if id in order then |order| else |order| + 1
  {
    WithoutOrdered(order, sessions, bound, id);
    WithoutSize(order, sessions, bound, id);
    OrderedWeaken(Without(order, id), sessions - {id}, bound, e.lastUsed - 1);
    assert sessions[id := e] - {id} == sessions - {id};
    assert ToFront(order, id)[1..] == Without(order, id);
  }

  /** The smallest stamp belongs to the tail, and to no other session. */
  lemma {:induction false} TailIsLeast(order: seq<string>, sessions: map<string, Entry>, bound: int, id: string)
    requires Ordered(order, sessions, bound) && id in sessions
    ensures var last := order[|order| - 1];
            last in sessions && (id != last ==> sessions[last].lastUsed < sessions[id].lastUsed)
  {
    OrderedFacts(order, sessions, bound);
    var rest := sessions - {order[0]};
    OrderedFacts(order[1..], rest, sessions[order[0]].lastUsed - 1);
    if |order| > 1 {
      var last := order[|order| - 1];
      assert order[1..][|order| - 2] == last && last in order[1..];
      if id != order[0] {
        TailIsLeast(order[1..], rest, sessions[order[0]].lastUsed - 1, id);
      }
    }
  }

  lemma {:induction false} DropLast(order: seq<string>, sessions: map<string, Entry>, bound: int)
    requires Ordered(order, sessions, bound) && order != []
    ensures Ordered(order[..|order| - 1], sessions - {order[|order| - 1]}, bound)
  {
    var head, last := order[0], order[|order| - 1];
    if |order| == 1 {
      assert sessions - {last} == map[];
    } else {
      var rest := sessions - {head};
      OrderedFacts(order[1..], rest, sessions[head].lastUsed - 1);
      DropLast(order[1..], rest, sessions[head].lastUsed - 1);
      assert order[1..][|order| - 2] == last && last in order[1..];
      assert order[1..][..|order| - 2] == order[..|order| - 1][1..];
      assert rest - {last} == (sessions - {last}) - {head};
    }
  }

  class BoundedSessionStore {
    var sessions: map<string, Entry>
    var clock: nat
    var disk: Option<map<string, File>>
    ghost var order: seq<string>

    ghost predicate Valid()
      reads this
    {
      clock <= U64_MAX && Ordered(order, sessions, clock) && |order| <= MAX_SESSIONS
    }

    ghost function Abstract(): View
      reads this
    {
      View(order, ParamsOf(sessions), disk)
    }

    constructor (dir: Option<map<string, File>>)
      ensures Valid() && Abstract() == View([], map[], dir)
    {
      sessions := map[];
      clock := 0;
      disk := dir;
      order := [];
    }

    /** Wrapping increment of the 64-bit recency clock. */
    method Tick() returns (stamp: nat)
      modifies this`clock
      ensures stamp == clock == if old(clock) == U64_MAX then 0 else old(clock) + 1
    {
      clock := if clock == U64_MAX then 0 else clock + 1;
      return clock;
    }

    /** The session with the smallest stamp. */
    method LeastRecentlyUsed(ghost bound: int) returns (victim: string)
      requires Ordered(order, sessions, bound) && order != []
      ensures victim == order[|order| - 1]
    {
      OrderedFacts(order, sessions, bound);
      assert order[0] in sessions;
      victim :| victim in sessions;
      var rest := sessions.Keys - {victim};
      while rest != {}
        invariant victim in sessions && rest <= sessions.Keys
        invariant forall id | id in sessions && id !in rest :: sessions[victim].lastUsed <= sessions[id].lastUsed
      {
        var id :| id in rest;
        rest := rest - {id};
        if sessions[id].lastUsed < sessions[victim].lastUsed {
          victim := id;
        }
      }
      TailIsLeast(order, sessions, bound, victim);
    }

    method EvictOne(ghost bound: int) returns (victim: string)
      requires order != [] && Ordered(order, sessions, bound)
      modifies this`sessions, this`order
      ensures Ordered(order, sessions, bound)
      ensures victim == old(order)[|old(order)| - 1]
      ensures Abstract() == WithoutTail(old(Abstract()))
    {
      victim := LeastRecentlyUsed(bound);
      DropLast(order, sessions, bound);
      ParamsOfUpdate(sessions, victim, Entry("", 0));
      sessions := sessions - {victim};
      order := order[..|order| - 1];
    }

    /** Evict until there is room for one more; the victims, least recently used first. */
    method EvictToCap(ghost bound: int) returns (victims: seq<string>)
      requires Ordered(order, sessions, bound) && |order| <= MAX_SESSIONS
      modifies this`sessions, this`order
      ensures Ordered(order, sessions, bound) && |order| < MAX_SESSIONS
      ensures Abstract() == Evicted(old(Abstract()))
      ensures victims == Victims(old(order))
    {
      victims := [];
      OrderedFacts(order, sessions, bound);
      EvictedCases(Abstract());
      while |sessions| >= MAX_SESSIONS
        invariant Ordered(order, sessions, bound) && |order| <= MAX_SESSIONS && |sessions| == |order|
        invariant victims == [] ==> Abstract() == old(Abstract())
        invariant victims != [] ==>
          |order| < MAX_SESSIONS && Abstract() == Evicted(old(Abstract())) && victims == Victims(old(order))
        decreases |sessions|
      {
        var victim := EvictOne(bound);
        OrderedFacts(order, sessions, bound);
        victims := victims + [victim];
      }
    }

    /** The session goes to the front of the list; the stamps say so too when the new one is the largest. */
    method Insert(id: string, params: Params, stamp: nat, ghost bound: int)
      requires Ordered(order, sessions, bound) && |order| <= MAX_SESSIONS
      requires id in sessions || |order| < MAX_SESSIONS
      modifies this`sessions, this`order
      ensures Abstract() == View(ToFront(old(order), id), old(Abstract()).mem[id := params], disk)
      ensures sessions == old(sessions)[id := Entry(params, stamp)] && |order| <= MAX_SESSIONS
      ensures bound < stamp ==> Ordered(order, sessions, stamp)
    {
      OrderedFacts(order, sessions, bound);
      WithoutSize(order, sessions, bound, id);
      if bound < stamp { ToFrontOrdered(order, sessions, bound, id, Entry(params, stamp)); }
      ParamsOfUpdate(sessions, id, Entry(params, stamp));
      sessions := sessions[id := Entry(params, stamp)];
      order := ToFront(order, id);
    }

    method DeleteFiles(ids: seq<string>)
      modifies this`disk
      ensures Abstract() == DropFiles(old(Abstract()), set x | x in ids)
    {
      if disk.None? {
        return;
      }
      ghost var was := disk.value;
      for i := 0 to |ids|
        invariant disk.Some?
        invariant disk.value == map id | id in was && !(id in ids[..i] && Safe(id)) :: was[id]
      {
        if Safe(ids[i]) {
          disk := Some(disk.value - {ids[i]});
        }
      }
      ghost var all := set x | x in ids;
      assert ids[..|ids|] == ids;
      assert disk.value == map id | id in was && !(id in all && Safe(id)) :: was[id];
    }

    /** The stamp that wraps around, once in 2^64 uses, is 0: the session used last then looks like the
        one used least. Answer, memory and files are right all the same. */
    method LoadSession(id: string) returns (found: Option<Params>)
      requires Valid()
      modifies this
      ensures (Abstract(), found) == Load(old(Abstract()), id)
      ensures old(clock) < U64_MAX ==> Valid()
      ensures old(clock) == U64_MAX && found.Some? ==> id in sessions && sessions[id].lastUsed == 0
    {
      ghost var bound := clock;
      var stamp := Tick();
      if id in sessions {
        var params := sessions[id].params;
        Insert(id, params, stamp, bound);
        assert old(Abstract()).mem[id := params] == old(Abstract()).mem;
        return Some(params);
      }
      if disk.None? || !Safe(id) || id !in disk.value || disk.value[id].Corrupt? {
        OrderedWeaken(order, sessions, bound, if bound < clock then clock else bound);
        return None;
      }
      var params := disk.value[id].params;
      var victims := [];
      OrderedFacts(order, sessions, bound);
      if |sessions| >= MAX_SESSIONS {
        victims := EvictToCap(bound);
      } else {
        EvictedCases(Abstract());
      }
      Insert(id, params, stamp, bound);
      DeleteFiles(victims);
      return Some(params);
    }

    method StoreSession(id: string, params: Params)
      requires Valid()
      modifies this
      ensures Abstract() == Store(old(Abstract()), id, params)
      ensures old(clock) < U64_MAX ==> Valid()
      ensures old(clock) == U64_MAX ==> id in sessions && sessions[id].lastUsed == 0
    {
      ghost var bound := clock;
      var victims := [];
      if id !in sessions {
        victims := EvictToCap(bound);
      }
      ghost var gone := set x | x in victims;
      assert gone == if id in old(sessions) then {} else set x | x in Victims(old(order));
      var stamp := Tick();
      Insert(id, params, stamp, bound);
      if disk.Some? {
        if Safe(id) {
          disk := Some(disk.value[id := Good(params)]);
        }
        DeleteFiles(victims);
      }
    }

    /** The first step of a deletion, under the lock. */
    method RemoveEntry(id: string)
      requires Valid()
      modifies this`sessions, this`order
      ensures Valid() && Abstract() == DeleteEntry(old(Abstract()), id)
    {
      WithoutOrdered(order, sessions, clock, id);
      ParamsOfUpdate(sessions, id, Entry("", 0));
      sessions := sessions - {id};
      order := Without(order, id);
    }

    method DeleteSession(id: string)
      requires Valid()
      modifies this
      ensures Valid()
      ensures Abstract() == Delete(old(Abstract()), id)
    {
      RemoveEntry(id);
      assert (set x | x in [id]) == {id};
      DeleteFiles([id]);
    }
  }

  // ── Laws of the list view ─────────────────────────────────────────────────

  datatype Op = OpLoad(id: string) | OpStore(id: string, params: Params) | OpDelete(id: string) | OpRestart

  function Apply(v: View, op: Op): View
  {
    match op
    case OpLoad(id) => Load(v, id).0
    case OpStore(id, params) => Store(v, id, params)
    case OpDelete(id) => Delete(v, id)
    case OpRestart => Restart(v)
  }

  function Run(v: View, ops: seq<Op>): View
    decreases |ops|
  {
    if ops == [] then v else Run(Apply(v, ops[0]), ops[1..])
  }

  ghost predicate Distinct(order: seq<string>)
  {
    forall i, j | 0 <= i < j < |order| :: order[i] != order[j]
  }

  /** Every safely named session in memory equals its file. */
  ghost predicate FilesMatch(v: View)
  {
    v.disk.Some? ==> forall id | id in v.mem && Safe(id) :: FromDisk(v, id) == Some(v.mem[id])
  }

  /** List and memory name the same sessions once, the cap holds, and every safely named session
      equals its file. */
  ghost predicate InSync(v: View)
  {
    && Distinct(v.order)
    && (forall id :: id in v.mem <==> id in v.order)
    && |v.order| <= MAX_SESSIONS
    && FilesMatch(v)
  }

  lemma {:induction false} WithoutDistinct(order: seq<string>, id: string)
    requires Distinct(order)
    ensures Distinct(Without(order, id))
    ensures id in order ==> |Without(order, id)| < |order|
  {
    if order != [] {
      assert forall i, j | 0 <= i < j < |order[1..]| :: order[1..][i] == order[i + 1] && order[1..][j] == order[j + 1];
      WithoutDistinct(order[1..], id);
      if order[0] != id {
        var rest := Without(order[1..], id);
        forall j | 0 <= j < |rest| ensures rest[j] != order[0] {
          assert rest[j] in order[1..];
          var k :| 0 <= k < |order[1..]| && order[1..][k] == rest[j];
          assert order[k + 1] == rest[j];
        }
      }
    }
  }

  lemma EvictedInSync(v: View)
    requires InSync(v)
    ensures InSync(Evicted(v)) && |Evicted(v).order| < MAX_SESSIONS
    ensures forall id :: id in Victims(v.order) <==> id in v.mem && id !in Evicted(v).mem
  {
    EvictedCases(v);
    if |v.order| == MAX_SESSIONS {
      var last := v.order[|v.order| - 1];
      var rest := v.order[..|v.order| - 1];
      assert forall id | id in rest :: id in v.order;
      assert forall id | id in v.order && id != last :: id in rest;
      assert last !in rest;
    }
  }

  lemma ToFrontDistinct(order: seq<string>, id: string)
    requires Distinct(order)
    ensures Distinct(ToFront(order, id))
    ensures |ToFront(order, id)| <= if id in order then |order| else |order| + 1
  {
    WithoutDistinct(order, id);
    var rest := Without(order, id);
    assert forall j | 0 <= j < |rest| :: rest[j] in rest;
  }

  lemma InsertFilesMatch(v: View, order: seq<string>, id: string, params: Params, disk: Option<map<string, File>>)
    requires FilesMatch(v)
    requires disk == v.disk || (v.disk.Some? && Safe(id) && disk == Some(v.disk.value[id := Good(params)]))
    requires disk.Some? && Safe(id) ==> id in disk.value && disk.value[id] == Good(params)
    ensures FilesMatch(View(order, v.mem[id := params], disk))
  {
    var w := View(order, v.mem[id := params], disk);
    if disk.Some? {
      forall x | x in w.mem && Safe(x) ensures FromDisk(w, x) == Some(w.mem[x]) {
        assert x != id ==> FromDisk(v, x) == Some(v.mem[x]);
      }
    }
  }

  lemma InsertInSync(v: View, id: string, params: Params, disk: Option<map<string, File>>)
    requires InSync(v) && (id in v.mem || |v.order| < MAX_SESSIONS)
    requires disk == v.disk || (v.disk.Some? && Safe(id) && disk == Some(v.disk.value[id := Good(params)]))
    requires disk.Some? && Safe(id) ==> id in disk.value && disk.value[id] == Good(params)
    ensures InSync(View(ToFront(v.order, id), v.mem[id := params], disk))
  {
    ToFrontDistinct(v.order, id);
    InsertFilesMatch(v, ToFront(v.order, id), id, params, disk);
  }

  lemma DropInSync(v: View, gone: set<string>)
    requires InSync(v) && forall id | id in gone :: id !in v.mem
    ensures InSync(DropFiles(v, gone))
  {}

  lemma LoadKeepsInSync(v: View, id: string)
    requires InSync(v)
    ensures InSync(Load(v, id).0)
  {
    if id in v.mem {
      InsertInSync(v, id, v.mem[id], v.disk);
      assert v.mem[id := v.mem[id]] == v.mem;
    } else if FromDisk(v, id).Some? {
      EvictedInSync(v);
      var params := FromDisk(v, id).value;
      var e := Evicted(v);
      InsertInSync(e, id, params, v.disk);
      DropInSync(View(ToFront(e.order, id), e.mem[id := params], v.disk), set x | x in Victims(v.order));
    }
  }

  lemma StoreKeepsInSync(v: View, id: string, params: Params)
    requires InSync(v)
    ensures InSync(Store(v, id, params))
  {
    EvictedInSync(v);
    var gone := if id in v.mem then {} else set x | x in Victims(v.order);
    var disk := if v.disk.Some? && Safe(id) then Some(v.disk.value[id := Good(params)]) else v.disk;
    var e := if id in v.mem then v else Evicted(v);
    InsertInSync(e, id, params, disk);
    DropInSync(View(ToFront(e.order, id), e.mem[id := params], disk), gone);
  }

  lemma DeleteKeepsInSync(v: View, id: string)
    requires InSync(v)
    ensures InSync(Delete(v, id))
  {
    WithoutDistinct(v.order, id);
    DropInSync(DeleteEntry(v, id), {id});
  }

  lemma ApplyKeepsInSync(v: View, op: Op)
    requires InSync(v)
    ensures InSync(Apply(v, op))
  {
    match op
    case OpLoad(id) => LoadKeepsInSync(v, id);
    case OpStore(id, params) => StoreKeepsInSync(v, id, params);
    case OpDelete(id) => DeleteKeepsInSync(v, id);
    case OpRestart =>
  }

  lemma {:induction false} RunKeepsInSync(v: View, ops: seq<Op>)
    requires InSync(v)
    ensures InSync(Run(v, ops))
    decreases |ops|
  {
    if ops != [] {
      ApplyKeepsInSync(v, ops[0]);
      RunKeepsInSync(Apply(v, ops[0]), ops[1..]);
    }
  }

  /** Over every sequence of operations and restarts on one directory, memory never exceeds the
      cap and a load of a safe id answers exactly what the directory holds. */
  lemma LoadAnswersAsDisk(dir: map<string, File>, ops: seq<Op>, id: string)
    requires Safe(id)
    ensures var v := Run(View([], map[], Some(dir)), ops);
            |v.mem| <= MAX_SESSIONS && Load(v, id).1 == FromDisk(v, id)
  {
    var v := Run(View([], map[], Some(dir)), ops);
    RunKeepsInSync(View([], map[], Some(dir)), ops);
    RunKeepsDirectory(View([], map[], Some(dir)), ops);
    SizeOfDistinct(v.order, v.mem.Keys);
    assert |v.mem| == |v.mem.Keys|;
  }

  lemma {:induction false} RunKeepsDirectory(v: View, ops: seq<Op>)
    requires v.disk.Some?
    ensures Run(v, ops).disk.Some?
    decreases |ops|
  {
    if ops != [] { RunKeepsDirectory(Apply(v, ops[0]), ops[1..]); }
  }

  lemma {:induction false} SizeOfDistinct(order: seq<string>, ids: set<string>)
    requires Distinct(order) && forall id :: id in ids <==> id in order
    ensures |ids| == |order|
  {
    if order == [] {
      assert ids == {};
    } else {
      assert forall i | 0 <= i < |order[1..]| :: order[1..][i] == order[i + 1];
      SizeOfDistinct(order[1..], ids - {order[0]});
    }
  }

  /** With a directory, a restart changes the answer for an id exactly when the id lives in
      memory but is not safe as a file name. */
  lemma RestartKeepsAnswerIff(v: View, id: string)
    requires InSync(v) && v.disk.Some?
    ensures Load(Restart(v), id).1 == Load(v, id).1 <==> Safe(id) || id !in v.mem
  {}

  /** Such an id: stored, found, and gone after a restart. */
  lemma UnsafeIdForgotten(params: Params)
    ensures var v := Store(View([], map[], Some(map[])), "a b", params);
            InSync(v) && Load(v, "a b").1 == Some(params) && Load(Restart(v), "a b").1 == None
  {
    StoreKeepsInSync(View([], map[], Some(map[])), "a b", params);
    assert "a b"[1] == ' ';
  }

  /** Re-storing a session evicts nobody. */
  lemma RestoreEvictsNobody(v: View, id: string, params: Params)
    requires InSync(v) && id in v.mem
    ensures Store(v, id, params).mem.Keys == v.mem.Keys
    ensures |Store(v, id, params).order| == |v.order|
  {
    WithoutDistinct(v.order, id);
    SizeOfDistinct(v.order, v.mem.Keys);
    ApplyKeepsInSync(v, OpStore(id, params));
    var w := Store(v, id, params);
    SizeOfDistinct(w.order, w.mem.Keys);
    assert w.mem.Keys == v.mem.Keys;
  }

  ghost predicate Gone(v: View, id: string)
  {
    id !in v.mem && FromDisk(v, id).None?
  }

  lemma {:induction false} GoneStaysGone(v: View, ops: seq<Op>, id: string)
    requires InSync(v) && Gone(v, id)
    requires forall op | op in ops :: !(op.OpStore? && op.id == id)
    ensures Gone(Run(v, ops), id)
    decreases |ops|
  {
    if ops != [] {
      ApplyKeepsInSync(v, ops[0]);
      GoneStaysGone(Apply(v, ops[0]), ops[1..], id);
    }
  }

  /** A session that an operation removed from memory, by deletion or by eviction, is never
      restored: no later sequence of operations and restarts brings it back unless it is stored
      again. */
  lemma ForgottenForGood(v: View, op: Op, rest: seq<Op>, id: string)
    requires InSync(v) && !op.OpRestart?
    requires id in v.mem && id !in Apply(v, op).mem
    requires forall o | o in rest :: !(o.OpStore? && o.id == id)
    ensures Load(Run(Apply(v, op), rest), id).1 == None
  {
    EvictedInSync(v);
    ApplyKeepsInSync(v, op);
    GoneStaysGone(Apply(v, op), rest, id);
  }

  /** What lies in the directory under `id`. */
  function FileAt(v: View, id: string): Option<File>
  {
    if v.disk.Some? && id in v.disk.value then Some(v.disk.value[id]) else None
  }

  /** Whatever is done, no file is written or removed under a name that is not safe. */
  lemma {:induction false} UnsafeFilesUntouched(v: View, ops: seq<Op>, id: string)
    requires !Safe(id)
    ensures FileAt(Run(v, ops), id) == FileAt(v, id)
    decreases |ops|
  {
    if ops != [] { UnsafeFilesUntouched(Apply(v, ops[0]), ops[1..], id); }
  }

  // ── Which session goes ────────────────────────────────────────────────────

  /** A store of the session, or a load that found it. */
  predicate Uses(v: View, op: Op, id: string)
  {
    (op.OpStore? && op.id == id) || (op == OpLoad(id) && Load(v, id).1.Some?)
  }

  /** The number of the last operation that used the session, counted from one. */
  function LastUse(v: View, ops: seq<Op>, id: string): nat
    decreases |ops|
  {
    if ops == [] then 0
    else
      var n := |ops| - 1;
      if Uses(Run(v, ops[..n]), ops[n], id) then |ops| else LastUse(v, ops[..n], id)
  }

  lemma {:induction false} LastUseBound(v: View, ops: seq<Op>, id: string)
    ensures LastUse(v, ops, id) <= |ops|
    decreases |ops|
  {
    if ops != [] { LastUseBound(v, ops[..|ops| - 1], id); }
  }

  /** The list runs from later to earlier last uses. */
  ghost predicate ByLastUse(v: View, ops: seq<Op>, order: seq<string>)
  {
    forall i, j | 0 <= i < j < |order| :: LastUse(v, ops, order[i]) > LastUse(v, ops, order[j])
  }

  lemma {:induction false} WithoutAt(order: seq<string>, id: string, i: nat, j: nat) returns (a: nat, b: nat)
    requires i < j < |Without(order, id)|
    ensures a < b < |order| && order[a] == Without(order, id)[i] && order[b] == Without(order, id)[j]
  {
    var rest := order[1..];
    if order[0] == id {
      a, b := WithoutAt(rest, id, i, j);
      a, b := a + 1, b + 1;
    } else if i > 0 {
      a, b := WithoutAt(rest, id, i - 1, j - 1);
      a, b := a + 1, b + 1;
    } else {
      assert Without(order, id)[j] == Without(rest, id)[j - 1];
      assert Without(rest, id)[j - 1] in rest;
      a := 0;
      b :| 0 < b < |order| && order[b] == Without(order, id)[j];
    }
  }

  lemma WithoutByLastUse(v: View, ops: seq<Op>, order: seq<string>, id: string)
    requires ByLastUse(v, ops, order)
    ensures ByLastUse(v, ops, Without(order, id))
  {
    var rest := Without(order, id);
    forall i, j | 0 <= i < j < |rest| ensures LastUse(v, ops, rest[i]) > LastUse(v, ops, rest[j]) {
      var a, b := WithoutAt(order, id, i, j);
    }
  }

  lemma UseAfter(v: View, ops: seq<Op>, op: Op, id: string)
    ensures LastUse(v, ops + [op], id) == if Uses(Run(v, ops), op, id) then |ops| + 1 else LastUse(v, ops, id)
    ensures LastUse(v, ops, id) <= |ops|
  {
    assert (ops + [op])[..|ops|] == ops;
    LastUseBound(v, ops, id);
  }

  /** Sessions other than the one used keep their last use. */
  lemma OthersKeepUse(v: View, ops: seq<Op>, op: Op, order: seq<string>)
    requires ByLastUse(v, ops, order) && forall id | id in order :: !Uses(Run(v, ops), op, id)
    ensures ByLastUse(v, ops + [op], order)
  {
    forall id | id in order ensures LastUse(v, ops + [op], id) == LastUse(v, ops, id) {
      UseAfter(v, ops, op, id);
    }
  }

  lemma FirstByLastUse(v: View, ops: seq<Op>, id: string, rest: seq<string>)
    requires ByLastUse(v, ops, rest) && forall x | x in rest :: LastUse(v, ops, x) < LastUse(v, ops, id)
    ensures ByLastUse(v, ops, [id] + rest)
  {
    var all := [id] + rest;
    forall i, j | 0 <= i < j < |all| ensures LastUse(v, ops, all[i]) > LastUse(v, ops, all[j]) {
      assert all[j] == rest[j - 1] && (i > 0 ==> all[i] == rest[i - 1]);
    }
  }

  lemma UsedFirst(v: View, ops: seq<Op>, op: Op, order: seq<string>, id: string)
    requires ByLastUse(v, ops, order) && Uses(Run(v, ops), op, id)
    ensures ByLastUse(v, ops + [op], ToFront(order, id))
  {
    var rest := Without(order, id);
    WithoutByLastUse(v, ops, order, id);
    OthersKeepUse(v, ops, op, rest);
    UseAfter(v, ops, op, id);
    forall x | x in rest ensures LastUse(v, ops + [op], x) < LastUse(v, ops + [op], id) {
      UseAfter(v, ops, op, x);
    }
    FirstByLastUse(v, ops + [op], id, rest);
  }

  lemma PrefixByLastUse(v: View, ops: seq<Op>, order: seq<string>, n: nat)
    requires ByLastUse(v, ops, order) && n <= |order|
    ensures ByLastUse(v, ops, order[..n])
  {}

  lemma LoadByLastUse(v: View, ops: seq<Op>, id: string)
    requires ByLastUse(v, ops, Run(v, ops).order)
    ensures ByLastUse(v, ops + [OpLoad(id)], Load(Run(v, ops), id).0.order)
  {
    var w := Run(v, ops);
    PrefixByLastUse(v, ops, w.order, |w.order| - |Victims(w.order)|);
    if Load(w, id).1.Some? {
      UsedFirst(v, ops, OpLoad(id), if id in w.mem then w.order else Evicted(w).order, id);
    } else {
      OthersKeepUse(v, ops, OpLoad(id), w.order);
    }
  }

  lemma StoreByLastUse(v: View, ops: seq<Op>, id: string, params: Params)
    requires ByLastUse(v, ops, Run(v, ops).order)
    ensures ByLastUse(v, ops + [OpStore(id, params)], Store(Run(v, ops), id, params).order)
  {
    var w := Run(v, ops);
    PrefixByLastUse(v, ops, w.order, |w.order| - |Victims(w.order)|);
    UsedFirst(v, ops, OpStore(id, params), if id in w.mem then w.order else Evicted(w).order, id);
  }

  lemma StepByLastUse(v: View, ops: seq<Op>, op: Op)
    requires ByLastUse(v, ops, Run(v, ops).order)
    ensures ByLastUse(v, ops + [op], Apply(Run(v, ops), op).order)
  {
    var w := Run(v, ops);
    match op
    case OpLoad(id) => LoadByLastUse(v, ops, id);
    case OpStore(id, params) => StoreByLastUse(v, ops, id, params);
    case OpDelete(id) =>
      WithoutByLastUse(v, ops, w.order, id);
      OthersKeepUse(v, ops, op, Without(w.order, id));
    case OpRestart =>
  }

  lemma {:induction false} OrderIsByLastUse(v: View, ops: seq<Op>)
    requires v.order == []
    ensures ByLastUse(v, ops, Run(v, ops).order)
    decreases |ops|
  {
    if ops != [] {
      var n := |ops| - 1;
      OrderIsByLastUse(v, ops[..n]);
      StepByLastUse(v, ops[..n], ops[n]);
      RunLast(v, ops);
      assert ops[..n] + [ops[n]] == ops;
    }
  }

  lemma TailIsLeastRecent(v: View, ops: seq<Op>, order: seq<string>, x: string)
    requires ByLastUse(v, ops, order) && x in order && x != order[|order| - 1]
    ensures LastUse(v, ops, order[|order| - 1]) < LastUse(v, ops, x)
  {}

  lemma OnlyTheTailLeaves(v: View, op: Op, id: string)
    requires InSync(v) && id in v.mem && id !in Apply(v, op).mem && op != OpDelete(id) && !op.OpRestart?
    ensures |v.mem| == MAX_SESSIONS == |v.order| && (op.OpStore? || op.OpLoad?) && op.id !in v.mem
    ensures id == v.order[|v.order| - 1]
  {
    StepMem(v, op, id);
    SizeOfDistinct(v.order, v.mem.Keys);
    assert |v.mem| == |v.mem.Keys|;
  }

  /** Over every sequence of operations and restarts from an empty memory: a session that leaves memory,
      not deleted and not in a restart, leaves a full memory to a session that was not there, and all
      others in it were stored or found later than it last was. */
  lemma VictimIsLeastRecent(dir: Option<map<string, File>>, ops: seq<Op>, op: Op, id: string)
    requires var v := Run(View([], map[], dir), ops);
             id in v.mem && id !in Apply(v, op).mem && op != OpDelete(id) && !op.OpRestart?
    ensures var v := Run(View([], map[], dir), ops);
            && |v.mem| == MAX_SESSIONS && (op.OpStore? || op.OpLoad?) && op.id !in v.mem
            && forall x | x in v.mem && x != id ::
                 LastUse(View([], map[], dir), ops, id) < LastUse(View([], map[], dir), ops, x)
  {
    var start := View([], map[], dir);
    var v := Run(start, ops);
    RunKeepsInSync(start, ops);
    OrderIsByLastUse(start, ops);
    OnlyTheTailLeaves(v, op, id);
    forall x | x in v.mem && x != id ensures LastUse(start, ops, id) < LastUse(start, ops, x) {
      TailIsLeastRecent(start, ops, v.order, x);
    }
  }

  // ── What a load answers ───────────────────────────────────────────────────

  /** The operation loses the session: a deletion, an eviction, or a restart of what no file holds. */
  predicate Loses(v: View, op: Op, id: string)
  {
    || op == OpDelete(id)
    || (op.OpRestart? && !(Safe(id) && v.disk.Some?))
    || (Admits(v, op) && op.id != id && |v.order| == MAX_SESSIONS && v.order[MAX_SESSIONS - 1] == id)
  }

  predicate EverLost(v: View, ops: seq<Op>, id: string)
    decreases |ops|
  {
    ops != [] && (Loses(v, ops[0], id) || EverLost(Apply(v, ops[0]), ops[1..], id))
  }

  lemma LoadAnswer(v: View, other: string, id: string, params: Params)
    requires InSync(v) && Load(v, id).1 == Some(params)
    ensures Load(Load(v, other).0, id).1 == if Loses(v, OpLoad(other), id) then None else Some(params)
  {
    EvictedMem(v, id);
    EvictedInSync(v);
  }

  lemma StoreFile(v: View, other: string, with: Params, id: string)
    requires InSync(v) && other != id
    ensures FromDisk(Store(v, other, with), id) ==
            if other !in v.mem && id in Victims(v.order) then None else FromDisk(v, id)
  {}

  lemma StoreMem(v: View, other: string, with: Params, id: string)
    requires InSync(v) && other != id
    ensures id in Store(v, other, with).mem ==> id in v.mem && Store(v, other, with).mem[id] == v.mem[id]
  {
    EvictedCases(v);
  }

  lemma StoreAnswer(v: View, other: string, with: Params, id: string, params: Params)
    requires InSync(v) && Load(v, id).1 == Some(params) && other != id
    ensures Load(Store(v, other, with), id).1 == if Loses(v, OpStore(other, with), id) then None else Some(params)
  {
    StepMem(v, OpStore(other, with), id);
    StoreFile(v, other, with, id);
    StoreMem(v, other, with, id);
    EvictedInSync(v);
    EvictedMem(v, id);
  }

  lemma StepAnswer(v: View, op: Op, id: string, params: Params)
    requires InSync(v) && Load(v, id).1 == Some(params) && !(op.OpStore? && op.id == id)
    ensures Load(Apply(v, op), id).1 == if Loses(v, op, id) then None else Some(params)
  {
    match op
    case OpLoad(other) => LoadAnswer(v, other, id, params);
    case OpStore(other, with) => StoreAnswer(v, other, with, id, params);
    case _ =>
  }

  lemma LostIsGone(v: View, op: Op, id: string)
    requires InSync(v) && Load(Apply(v, op), id).1 == None
    ensures Gone(Apply(v, op), id)
  {}

  /** A load finds exactly what was stored last, until the session is deleted, evicted, or forgotten in a
      restart because no file holds it; and from then on nothing. */
  lemma {:induction false} StoredIsFound(v: View, rest: seq<Op>, id: string, params: Params)
    requires InSync(v) && Load(v, id).1 == Some(params)
    requires forall op | op in rest :: !(op.OpStore? && op.id == id)
    ensures Load(Run(v, rest), id).1 == if EverLost(v, rest, id) then None else Some(params)
    decreases |rest|
  {
    if rest != [] {
      var op := rest[0];
      assert !(op.OpStore? && op.id == id);
      ApplyKeepsInSync(v, op);
      StepAnswer(v, op, id, params);
      if Loses(v, op, id) {
        LostIsGone(v, op, id);
        GoneStaysGone(Apply(v, op), rest[1..], id);
      } else {
        StoredIsFound(Apply(v, op), rest[1..], id, params);
      }
    }
  }

  /** In particular after a store. */
  lemma LastStoreIsFound(dir: Option<map<string, File>>, ops: seq<Op>, id: string, params: Params, rest: seq<Op>)
    requires forall op | op in rest :: !(op.OpStore? && op.id == id)
    ensures var s := Store(Run(View([], map[], dir), ops), id, params);
            Load(Run(s, rest), id).1 == if EverLost(s, rest, id) then None else Some(params)
  {
    var v := Run(View([], map[], dir), ops);
    RunKeepsInSync(View([], map[], dir), ops);
    StoreKeepsInSync(v, id, params);
    StoredIsFound(Store(v, id, params), rest, id, params);
  }

  // ── Deletion is two steps ─────────────────────────────────────────────────

  function DeleteFile(v: View, id: string): View
  {
    DropFiles(v, {id})
  }

  /** The operation leaves `id` in memory wherever it was before. */
  predicate BringsBack(v: View, op: Op, id: string)
  {
    || (op.OpStore? && op.id == id)
    || (op == OpLoad(id) && FromDisk(v, id).Some?)
  }

  /** The operation brings a session into memory that was not there. */
  predicate Admits(v: View, op: Op)
  {
    || (op.OpStore? && op.id !in v.mem)
    || (op.OpLoad? && op.id !in v.mem && FromDisk(v, op.id).Some?)
  }

  /** The operation removes `id` from memory: a restart, its deletion, or its eviction from the tail of
      a full list. */
  predicate Forgets(v: View, op: Op, id: string)
  {
    || op.OpRestart?
    || op == OpDelete(id)
    || (Admits(v, op) && op.id != id && |v.order| == MAX_SESSIONS && v.order[MAX_SESSIONS - 1] == id)
  }

  /** The last operation that brought `id` back was not followed by one that forgot it. */
  predicate BroughtBack(v: View, ops: seq<Op>, id: string)
    decreases |ops|
  {
    ops != [] &&
    var n := |ops| - 1;
    var w := Run(v, ops[..n]);
    BringsBack(w, ops[n], id) || (BroughtBack(v, ops[..n], id) && !Forgets(w, ops[n], id))
  }

  lemma {:induction false} RunLast(v: View, ops: seq<Op>)
    requires ops != []
    ensures Run(v, ops) == Apply(Run(v, ops[..|ops| - 1]), ops[|ops| - 1])
    decreases |ops|
  {
    if |ops| > 1 {
      RunLast(Apply(v, ops[0]), ops[1..]);
      assert ops[1..][..|ops| - 2] == ops[..|ops| - 1][1..];
    } else {
      assert ops[1..] == [] && ops[..0] == [];
    }
  }

  lemma EvictedMem(v: View, id: string)
    requires InSync(v)
    ensures id in Evicted(v).mem <==> id in v.mem && !(|v.order| == MAX_SESSIONS && v.order[MAX_SESSIONS - 1] == id)
  {
    EvictedCases(v);
  }

  /** One operation, seen from one session. */
  lemma StepMem(v: View, op: Op, id: string)
    requires InSync(v)
    ensures id in Apply(v, op).mem <==> BringsBack(v, op, id) || (id in v.mem && !Forgets(v, op, id))
  {
    EvictedMem(v, id);
  }

  lemma {:induction false} MemIff(v: View, ops: seq<Op>, id: string)
    requires InSync(v) && id !in v.mem
    ensures id in Run(v, ops).mem <==> BroughtBack(v, ops, id)
    decreases |ops|
  {
    if ops != [] {
      var before := ops[..|ops| - 1];
      MemIff(v, before, id);
      RunKeepsInSync(v, before);
      StepMem(Run(v, before), ops[|ops| - 1], id);
      RunLast(v, ops);
    }
  }

  /** A deletion with other operations between its two steps. */
  function InterruptedDelete(v: View, id: string, between: seq<Op>): View
  {
    DeleteFile(Run(DeleteEntry(v, id), between), id)
  }

  /** Uninterrupted, the two steps are one deletion. With any operations in between, the session ends
      up in memory exactly if the last of them that concerns it brought it back: a store, or a load
      while its file was there. Otherwise it is gone. Its file goes in any case. */
  lemma DeleteRaceIff(v: View, id: string, between: seq<Op>)
    requires InSync(v)
    ensures InterruptedDelete(v, id, []) == Delete(v, id)
    ensures id in InterruptedDelete(v, id, between).mem <==> BroughtBack(DeleteEntry(v, id), between, id)
    ensures Gone(InterruptedDelete(v, id, between), id) <==> !BroughtBack(DeleteEntry(v, id), between, id)
    ensures v.disk.Some? ==> Load(Restart(InterruptedDelete(v, id, between)), id).1 == None
  {
    EntryDropInSync(v, id);
    MemIff(DeleteEntry(v, id), between, id);
    if v.disk.Some? { RunKeepsDirectory(DeleteEntry(v, id), between); }
  }

  lemma EntryDropInSync(v: View, id: string)
    requires InSync(v)
    ensures InSync(DeleteEntry(v, id)) && id !in DeleteEntry(v, id).mem
  {
    WithoutDistinct(v.order, id);
  }

  lemma {:induction false} UntouchedNotBack(v: View, ops: seq<Op>, id: string)
    requires forall op | op in ops :: !((op.OpStore? || op.OpLoad?) && op.id == id)
    ensures !BroughtBack(v, ops, id)
    decreases |ops|
  {
    if ops != [] { UntouchedNotBack(v, ops[..|ops| - 1], id); }
  }

  /** With no store and no load of the session in between, the deletion holds for good: no later
      sequence of operations and restarts finds it again unless it is stored again. */
  lemma DeletedForGood(v: View, id: string, between: seq<Op>, rest: seq<Op>)
    requires InSync(v)
    requires forall op | op in between :: !((op.OpStore? || op.OpLoad?) && op.id == id)
    requires forall op | op in rest :: !(op.OpStore? && op.id == id)
    ensures Load(Run(InterruptedDelete(v, id, between), rest), id).1 == None
  {
    UntouchedNotBack(DeleteEntry(v, id), between, id);
    DeleteRaceIff(v, id, between);
    EntryDropInSync(v, id);
    RunKeepsInSync(DeleteEntry(v, id), between);
    DropInSync(Run(DeleteEntry(v, id), between), {id});
    GoneStaysGone(InterruptedDelete(v, id, between), rest, id);
  }

  /** The race does occur: a load between the two steps of a deletion keeps the session. */
  lemma LoadUndoesDelete(params: Params)
    ensures var v := Store(View([], map[], Some(map[])), "a", params);
            InSync(v) && "a" in InterruptedDelete(v, "a", [OpLoad("a")]).mem
  {
    var v := Store(View([], map[], Some(map[])), "a", params);
    StoreKeepsInSync(View([], map[], Some(map[])), "a", params);
    assert [OpLoad("a")][..0] == [];
    assert FromDisk(DeleteEntry(v, "a"), "a") == Some(params);
    DeleteRaceIff(v, "a", [OpLoad("a")]);
  }
}
