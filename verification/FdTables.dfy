/** The reference-counted descriptor tables of kernel/src/sched/fd.c. Entries and tables are named by numbers; 0 is an
    empty slot. */
module FdTables {

  const INITIAL := 16
  const MAX := 4096

  datatype Errno = EInval | EBadf | EBusy | EMfile | ENoMem

  datatype Result = Fd(fd: nat) | Okay | Err(errno: Errno)

  /** A table that has been freed has no slots and no references. */
  datatype Table = Table(entries: seq<nat>, refcount: nat)

  // ---- how often an entry is named

  function Times(q: seq<nat>, e: nat): nat {
    multiset(q)[e]
  }

  /** In how many slots of all tables an entry stands. */
  function Named(tables: seq<Table>, e: nat): nat {
    if tables == [] then 0 else Times(tables[0].entries, e) + Named(tables[1..], e)
  }

  lemma {:induction false} NamedUpdate(tables: seq<Table>, i: nat, t: Table, e: nat)
    requires i < |tables|
    ensures Named(tables[i := t], e) == Named(tables, e) - Times(tables[i].entries, e) + Times(t.entries, e)
  {
    if i == 0 {
      assert tables[0 := t][1..] == tables[1..];
    } else {
      NamedUpdate(tables[1..], i - 1, t, e);
      assert tables[i := t][1..] == tables[1..][i - 1 := t];
    }
  }

  lemma {:induction false} NamedAppend(tables: seq<Table>, t: Table, e: nat)
    ensures Named(tables + [t], e) == Named(tables, e) + Times(t.entries, e)
  {
    if tables != [] {
      NamedAppend(tables[1..], t, e);
      assert (tables + [t])[1..] == tables[1..] + [t];
    } else {
      assert ([t] + tables)[1..] == [] && tables + [t] == [t];
    }
  }

  /** An entry that stands in a slot is named. */
  lemma {:induction false} NamedAt(tables: seq<Table>, i: nat, k: nat)
    requires i < |tables| && k < |tables[i].entries|
    ensures Named(tables, tables[i].entries[k]) > 0
  {
    if i > 0 {
      NamedAt(tables[1..], i - 1, k);
    } else {
      assert tables[0].entries[k] in multiset(tables[0].entries);
    }
  }

  lemma TimesUpdate(q: seq<nat>, k: nat, x: nat, e: nat)
    requires k < |q|
    ensures Times(q[k := x], e) == Times(q, e) - (if q[k] == e then 1 else 0) + (if x == e then 1 else 0)
  {
    assert q == q[..k] + [q[k]] + q[k+1..];
    assert q[k := x] == q[..k] + [x] + q[k+1..];
  }

  function Blank(n: nat): seq<nat> {
    seq(n, i => 0)
  }

  lemma {:induction false} TimesBlank(n: nat, e: nat)
    requires e != 0
    ensures Times(Blank(n), e) == 0
  {
    assert e !in Blank(n);
  }

  lemma TimesJoin(a: seq<nat>, b: seq<nat>, e: nat)
    ensures Times(a + b, e) == Times(a, e) + Times(b, e)
  {
    assert multiset(a + b) == multiset(a) + multiset(b);
  }

  // ---- the books

  function Count(refs: map<nat, nat>, e: nat): nat {
    if e in refs then refs[e] else 0
  }

  /** The reference count of every entry alive is the number of slots that name it plus the handles outstanding, and is
      not 0; nothing else is named. */
  ghost predicate Balanced(tables: seq<Table>, refs: map<nat, nat>, handles: multiset<nat>) {
    && 0 !in refs && handles[0] == 0 && (forall e :: e in refs ==> refs[e] > 0)
    && (forall e :: e != 0 ==> Count(refs, e) == Named(tables, e) + handles[e])
  }

  ghost predicate TableOk(t: Table) {
    t.refcount == 0 ==> t.entries == []
  }

  /** No slot of any table names an entry that has been freed. */
  lemma SlotsAreAlive(tables: seq<Table>, refs: map<nat, nat>, handles: multiset<nat>, i: nat, k: nat)
    requires Balanced(tables, refs, handles) && i < |tables| && k < |tables[i].entries|
    ensures tables[i].entries[k] == 0 || tables[i].entries[k] in refs
  {
    NamedAt(tables, i, k);
  }

  /** With all tables gone and no handle outstanding, every entry has been freed. */
  lemma NothingLeaks(tables: seq<Table>, refs: map<nat, nat>, handles: multiset<nat>)
    requires Balanced(tables, refs, handles) && handles == multiset{}
    requires forall i :: 0 <= i < |tables| ==> TableOk(tables[i]) && tables[i].refcount == 0
    ensures refs == map[]
  {
    forall e | e in refs ensures false {
      NamedNowhere(tables, e);
    }
  }

  lemma {:induction false} NamedNowhere(tables: seq<Table>, e: nat)
    requires forall i :: 0 <= i < |tables| ==> tables[i].entries == []
    ensures Named(tables, e) == 0
  {
    if tables != [] {
      NamedNowhere(tables[1..], e);
    }
  }

  // ---- taking and giving up references

  function Inc(refs: map<nat, nat>, e: nat): map<nat, nat> {
    refs[e := Count(refs, e) + 1]
  }

  /** The last reference frees the entry. */
  function Dec(refs: map<nat, nat>, e: nat): map<nat, nat>
    requires e in refs && refs[e] > 0
  {
    if refs[e] == 1 then refs - {e} else refs[e := refs[e] - 1]
  }

  lemma HoldOk(tables: seq<Table>, refs: map<nat, nat>, handles: multiset<nat>, e: nat)
    requires Balanced(tables, refs, handles) && e != 0
    ensures Balanced(tables, Inc(refs, e), handles + multiset{e})
  {
  }

  lemma DropOk(tables: seq<Table>, refs: map<nat, nat>, handles: multiset<nat>, e: nat)
    requires Balanced(tables, refs, handles) && e in handles
    ensures e in refs && refs[e] > 0 && Balanced(tables, Dec(refs, e), handles - multiset{e})
  {
    assert Count(refs, e) == Named(tables, e) + handles[e];
  }

  function WithSlot(tables: seq<Table>, i: nat, k: nat, x: nat): seq<Table>
    requires i < |tables| && k < |tables[i].entries|
  {
    tables[i := tables[i].(entries := tables[i].entries[k := x])]
  }

  lemma SlotNamed(tables: seq<Table>, i: nat, k: nat, x: nat, e: nat)
    requires i < |tables| && k < |tables[i].entries|
    ensures Named(WithSlot(tables, i, k, x), e)
         == Named(tables, e) - (if tables[i].entries[k] == e then 1 else 0) + (if x == e then 1 else 0)
  {
    NamedUpdate(tables, i, tables[i].(entries := tables[i].entries[k := x]), e);
    TimesUpdate(tables[i].entries, k, x, e);
  }

  /** An entry goes into an empty slot, and the slot takes a reference. */
  lemma PutOk(tables: seq<Table>, refs: map<nat, nat>, handles: multiset<nat>, i: nat, k: nat, x: nat)
    requires Balanced(tables, refs, handles) && i < |tables| && k < |tables[i].entries| && tables[i].entries[k] == 0
      && x != 0
    ensures Balanced(WithSlot(tables, i, k, x), Inc(refs, x), handles)
  {
    forall e | e != 0 ensures Count(Inc(refs, x), e) == Named(WithSlot(tables, i, k, x), e) + handles[e] {
      SlotNamed(tables, i, k, x, e);
    }
  }

  /** A slot is emptied, and its reference is now the caller's. */
  lemma TakeOutOk(tables: seq<Table>, refs: map<nat, nat>, handles: multiset<nat>, i: nat, k: nat)
    requires Balanced(tables, refs, handles) && i < |tables| && k < |tables[i].entries| && tables[i].entries[k] != 0
    ensures Balanced(WithSlot(tables, i, k, 0), refs, handles + multiset{tables[i].entries[k]})
  {
    forall e | e != 0
      ensures Count(refs, e) == Named(WithSlot(tables, i, k, 0), e) + (handles + multiset{tables[i].entries[k]})[e]
    {
      SlotNamed(tables, i, k, 0, e);
    }
  }

  /** More empty slots change nothing. */
  lemma GrowOk(tables: seq<Table>, refs: map<nat, nat>, handles: multiset<nat>, i: nat, n: nat)
    requires Balanced(tables, refs, handles) && i < |tables|
    ensures Balanced(tables[i := tables[i].(entries := tables[i].entries + Blank(n))], refs, handles)
  {
    var t' := tables[i].(entries := tables[i].entries + Blank(n));
    forall e | e != 0 ensures Named(tables[i := t'], e) == Named(tables, e) {
      NamedUpdate(tables, i, t', e);
      TimesJoin(tables[i].entries, Blank(n), e);
      TimesBlank(n, e);
    }
  }

  lemma RecountOk(tables: seq<Table>, refs: map<nat, nat>, handles: multiset<nat>, i: nat, n: nat)
    requires Balanced(tables, refs, handles) && i < |tables|
    ensures Balanced(tables[i := tables[i].(refcount := n)], refs, handles)
  {
    forall e | e != 0 ensures Named(tables[i := tables[i].(refcount := n)], e) == Named(tables, e) {
      NamedUpdate(tables, i, tables[i].(refcount := n), e);
    }
  }

  lemma NewTableOk(tables: seq<Table>, refs: map<nat, nat>, handles: multiset<nat>, n: nat)
    requires Balanced(tables, refs, handles)
    ensures Balanced(tables + [Table(Blank(n), 1)], refs, handles)
  {
    forall e | e != 0 ensures Named(tables + [Table(Blank(n), 1)], e) == Named(tables, e) {
      NamedAppend(tables, Table(Blank(n), 1), e);
      TimesBlank(n, e);
    }
  }

  function NonZero(q: seq<nat>): (r: seq<nat>)
    ensures 0 !in r
  {
    if q == [] then [] else (if q[0] == 0 then [] else [q[0]]) + NonZero(q[1..])
  }

  lemma {:induction false} TimesNonZero(q: seq<nat>, e: nat)
    requires e != 0
    ensures Times(NonZero(q), e) == Times(q, e)
  {
    hide Times;
    TimesFew(0, e);
    if q != [] {
      TimesNonZero(q[1..], e);
      TimesFew(q[0], e);
      var h := if q[0] == 0 then [] else [q[0]];
      assert q == [q[0]] + q[1..];
      TimesJoin([q[0]], q[1..], e);
      TimesJoin(h, NonZero(q[1..]), e);
    }
  }

  lemma TimesFew(x: nat, e: nat)
    ensures Times([], e) == 0 && Times([x], e) == if x == e then 1 else 0
  {
  }

  /** A table is taken apart: what its slots referred to is now held by whoever does so. */
  lemma DismantleOk(tables: seq<Table>, refs: map<nat, nat>, handles: multiset<nat>, i: nat)
    requires Balanced(tables, refs, handles) && i < |tables|
    ensures Balanced(tables[i := Table([], 0)], refs, handles + multiset(NonZero(tables[i].entries)))
  {
    var q := tables[i].entries;
    forall e | e != 0 ensures Named(tables, e) == Named(tables[i := Table([], 0)], e) + Times(NonZero(q), e) {
      NamedUpdate(tables, i, Table([], 0), e);
      TimesNonZero(q, e);
    }
  }

  /** The lowest free slot; the length if there is none. */
  function LowestFree(q: seq<nat>): (k: nat)
    ensures k <= |q| && (k < |q| ==> q[k] == 0) && forall j :: 0 <= j < k ==> q[j] != 0
  {
    if q == [] || q[0] == 0 then 0 else 1 + LowestFree(q[1..])
  }

  lemma {:induction false} LowestFreeIs(q: seq<nat>, k: nat)
    requires k <= |q| && (k < |q| ==> q[k] == 0) && forall j :: 0 <= j < k ==> q[j] != 0
    ensures LowestFree(q) == k
  {
  }

  /** The slots after fdtable_grow. */
  function Resized(q: seq<nat>, min: nat): seq<nat>
    requires |q| < min <= MAX
  {
    var doubled := if 2 * |q| < min then min else 2 * |q|;
    q + Blank((if doubled > MAX then MAX else doubled) - |q|)
  }

  datatype Growth = Grown | Denied(errno: Errno)

  /** Whether fdtable_grow succeeds; `memory` says whether the heap has room for the larger table. */
  function Growing(min: nat, memory: bool): Growth {
    if min > MAX then Denied(EMfile) else if !memory then Denied(ENoMem) else Grown
  }

  // ---- what each call answers, and the tables it leaves

  /** The slots with an entry at a descriptor, in a larger table if need be. */
  function Fitted(q: seq<nat>, fd: nat, e: nat): seq<nat>
    requires fd < |q| || fd < MAX
  {
    (if fd >= |q| then Resized(q, fd + 1) else q)[fd := e]
  }

  function Holding(tables: seq<Table>, t: nat, fd: nat, e: nat): seq<Table>
    requires t < |tables| && (fd < |tables[t].entries| || fd < MAX)
  {
    tables[t := tables[t].(entries := Fitted(tables[t].entries, fd, e))]
  }

  function Slot(q: seq<nat>, fd: int): nat {
    if 0 <= fd < |q| then q[fd] else 0
  }

  function Installing(tables: seq<Table>, t: nat, e: nat, memory: bool): (Result, seq<Table>)
    requires t < |tables|
  {
    var q := tables[t].entries;
    var k := LowestFree(q);
    if k == |q| && Growing(k + 1, memory).Denied? then (Err(Growing(k + 1, memory).errno), tables)
    else (Fd(k), Holding(tables, t, k, e))
  }

  function InstallingAt(tables: seq<Table>, t: nat, fd: int, e: nat, memory: bool): (Result, seq<Table>)
    requires t < |tables|
  {
    var q := tables[t].entries;
    if fd < 0 then (Err(EInval), tables)
    else if fd >= |q| && Growing(fd + 1, memory).Denied? then (Err(Growing(fd + 1, memory).errno), tables)
    else if Slot(q, fd) != 0 then (Err(EBusy), tables)
    else (Fd(fd), Holding(tables, t, fd, e))
  }

  function Closing(tables: seq<Table>, t: nat, fd: int): (Result, seq<Table>)
    requires t < |tables|
  {
    if fd < 0 then (Err(EInval), tables)
    else if Slot(tables[t].entries, fd) == 0 then (Err(EBadf), tables)
    else (Okay, WithSlot(tables, t, fd, 0))
  }

  function Duplicating(tables: seq<Table>, t: nat, fd: int, memory: bool): (Result, seq<Table>)
    requires t < |tables|
  {
    var e := Slot(tables[t].entries, fd);
    if e == 0 then (Err(EBadf), tables) else Installing(tables, t, e, memory)
  }

  /** Whatever stands at the new descriptor makes way. */
  function Replacing(tables: seq<Table>, t: nat, fd: nat, e: nat, memory: bool): (Result, seq<Table>)
    requires t < |tables|
  {
    if fd >= |tables[t].entries| && Growing(fd + 1, memory).Denied? then (Err(Growing(fd + 1, memory).errno), tables)
    else (Fd(fd), Holding(tables, t, fd, e))
  }

  function Redirecting(tables: seq<Table>, t: nat, fd: int, to: int, memory: bool): (Result, seq<Table>)
    requires t < |tables|
  {
    var e := Slot(tables[t].entries, fd);
    if to < 0 then (Err(EInval), tables)
    else if e == 0 then (Err(EBadf), tables)
    else if fd == to then (Fd(to), tables)
    else Replacing(tables, t, to, e, memory)
  }

  function Releasing(tables: seq<Table>, t: nat): seq<Table>
    requires t < |tables| && tables[t].refcount > 0
  {
    tables[t := if tables[t].refcount == 1 then Table([], 0) else tables[t].(refcount := tables[t].refcount - 1)]
  }

  /** `memory` says whether the heap has room for the table a call may need. */
  datatype Cmd =
    | CreateCmd(memory: bool)
    | OpenCmd(entry: nat)
    | HoldCmd(entry: nat)
    | DropCmd(entry: nat)
    | InstallCmd(table: nat, entry: nat, memory: bool)
    | InstallAtCmd(table: nat, fd: int, entry: nat, memory: bool)
    | GetCmd(table: nat, fd: int)
    | CloseCmd(table: nat, fd: int)
    | DupCmd(table: nat, fd: int, memory: bool)
    | Dup2Cmd(table: nat, fd: int, to: int, memory: bool)
    | CloneCmd(table: nat, memory: bool)
    | RefCmd(table: nat)
    | UnrefCmd(table: nat)
  {
    predicate OnTable() {
      !CreateCmd? && !OpenCmd? && !HoldCmd? && !DropCmd?
    }

    /** The call may change table `i`. */
    predicate Touches(i: nat) {
      OnTable() && !CloneCmd? && table == i
    }
  }

  datatype Reply = Passed | NoTable | Made(table: nat) | Answer(result: Result) | Got(entry: nat) | Done

  /** The tables, and the references to entries that callers hold. */
  datatype View = View(tables: seq<Table>, handles: multiset<nat>) {
    /** How often an entry is referred to. */
    function Uses(e: nat): nat {
      Named(tables, e) + handles[e]
    }
  }

  /** Whether a call is legal: its table is there, it opens at an address not in use, it refers to an entry that is
      alive, and it gives up only what is held. Other calls are passed over. */
  predicate Runs(v: View, c: Cmd) {
    && (c.OnTable() ==> c.table < |v.tables| && v.tables[c.table].refcount > 0)
    && match c
       case OpenCmd(e) => e != 0 && v.Uses(e) == 0
       case HoldCmd(e) => e != 0 && v.Uses(e) > 0
       case DropCmd(e) => e in v.handles
       case InstallCmd(_, e, _) => e != 0 && v.Uses(e) > 0
       case InstallAtCmd(_, _, e, _) => e != 0 && v.Uses(e) > 0
       case _ => true
  }

  function Making(tables: seq<Table>, slots: seq<nat>, memory: bool): (Reply, seq<Table>) {
    if memory then (Made(|tables|), tables + [Table(slots, 1)]) else (NoTable, tables)
  }

  function Answering(a: (Result, seq<Table>)): (Reply, seq<Table>) {
    (Answer(a.0), a.1)
  }

  function Reacting(tables: seq<Table>, c: Cmd): (Reply, seq<Table>)
    requires c.OnTable() ==> c.table < |tables| && tables[c.table].refcount > 0
  {
    match c
    case CreateCmd(memory) => Making(tables, Blank(INITIAL), memory)
    case OpenCmd(_) => (Done, tables)
    case HoldCmd(_) => (Done, tables)
    case DropCmd(_) => (Done, tables)
    case InstallCmd(t, e, memory) => Answering(Installing(tables, t, e, memory))
    case InstallAtCmd(t, fd, e, memory) => Answering(InstallingAt(tables, t, fd, e, memory))
    case GetCmd(t, fd) => (Got(Slot(tables[t].entries, fd)), tables)
    case CloseCmd(t, fd) => Answering(Closing(tables, t, fd))
    case DupCmd(t, fd, memory) => Answering(Duplicating(tables, t, fd, memory))
    case Dup2Cmd(t, fd, to, memory) => Answering(Redirecting(tables, t, fd, to, memory))
    case CloneCmd(t, memory) => Making(tables, tables[t].entries, memory)
    case RefCmd(t) => (Done, tables[t := tables[t].(refcount := tables[t].refcount + 1)])
    case UnrefCmd(t) => (Done, Releasing(tables, t))
  }

  /** The handles after a call that got reply `r`. */
  function Holdings(handles: multiset<nat>, c: Cmd, r: Reply): multiset<nat> {
    if c.OpenCmd? || c.HoldCmd? then handles + multiset{c.entry}
    else if c.DropCmd? then handles - multiset{c.entry}
    else if c.GetCmd? && r.Got? && r.entry != 0 then handles + multiset{r.entry}
    else handles
  }

  function Step(v: View, c: Cmd): (Reply, View) {
    if !Runs(v, c) then (Passed, v)
    else
      var (r, tables) := Reacting(v.tables, c);
      (r, View(tables, Holdings(v.handles, c, r)))
  }

  /** The replies of a run of calls, and what it leaves. */
  function RunOf(v: View, cmds: seq<Cmd>): (r: (seq<Reply>, View))
    ensures |r.0| == |cmds|
    decreases |cmds|
  {
    if cmds == [] then ([], v)
    else
      var before := RunOf(v, cmds[..|cmds|-1]);
      var last := Step(before.1, cmds[|cmds|-1]);
      (before.0 + [last.0], last.1)
  }

  // ---- what the calls do, slot by slot

  /** The descriptor names an entry. */
  predicate Names(q: seq<nat>, fd: int) {
    0 <= fd < |q| && q[fd] != 0
  }

  /** The lowest empty slot is `k`; the length when all are taken. */
  ghost predicate FirstEmpty(q: seq<nat>, k: nat) {
    k <= |q| && (forall j :: 0 <= j < k ==> q[j] != 0) && (k < |q| ==> q[k] == 0)
  }

  /** Table `t` has entry `e` in slot `k`, which may have been added with other empty ones; every other slot, every
      other table and all handles are as they were. */
  ghost predicate SlotChanged(v: View, v': View, t: nat, k: nat, e: nat)
    requires t < |v.tables|
  {
    && |v'.tables| == |v.tables| && v'.handles == v.handles
    && (forall i :: 0 <= i < |v.tables| && i != t ==> v'.tables[i] == v.tables[i])
    && var q, q' := v.tables[t].entries, v'.tables[t].entries;
       && v'.tables[t].refcount == v.tables[t].refcount
       && k < |q'| && q'[k] == e
       && (forall j :: 0 <= j < |q'| && j != k ==> q'[j] == if j < |q| then q[j] else 0)
       && |q'| == if k < |q| then |q| else Capacity(|q|, k)
  }

  /** Twice as many slots, or as many as are needed if that is more, but never more than the limit. */
  function Capacity(n: nat, fd: nat): nat {
    var c := if 2 * n <= fd then fd + 1 else 2 * n; if c > MAX then MAX else c
  }

  /** A descriptor beyond the table: refused at the limit, and when memory is short. */
  ghost predicate PlacedAt(v: View, t: nat, fd: nat, e: nat, memory: bool, r: Reply, v': View)
    requires t < |v.tables|
  {
    var n := |v.tables[t].entries|;
    if fd >= n && fd >= MAX then r == Answer(Err(EMfile)) && v' == v
    else if fd >= n && !memory then r == Answer(Err(ENoMem)) && v' == v
    else r == Answer(Fd(fd)) && SlotChanged(v, v', t, fd, e)
  }

  /** Reply `r` and view `v'` are what fd.c promises of call `c`. */
  ghost predicate Promised(v: View, c: Cmd, r: Reply, v': View)
    requires Runs(v, c)
  {
    match c
    case CreateCmd(memory) =>
      if !memory then r == NoTable && v' == v
      else && r == Made(|v.tables|) && v'.handles == v.handles && |v'.tables| == |v.tables| + 1
           && v'.tables[..|v.tables|] == v.tables && v'.tables[|v.tables|].refcount == 1
           && |v'.tables[|v.tables|].entries| == INITIAL
           && forall j :: 0 <= j < INITIAL ==> v'.tables[|v.tables|].entries[j] == 0
    case OpenCmd(e) => r == Done && v'.tables == v.tables && v'.handles == v.handles + multiset{e}
    case HoldCmd(e) => r == Done && v'.tables == v.tables && v'.handles == v.handles + multiset{e}
    case DropCmd(e) => r == Done && v'.tables == v.tables && v' == v.(handles := v.handles - multiset{e})
    case InstallCmd(t, e, memory) =>
      exists k :: FirstEmpty(v.tables[t].entries, k) && PlacedAt(v, t, k, e, memory, r, v')
    case InstallAtCmd(t, fd, e, memory) =>
      if fd < 0 then r == Answer(Err(EInval)) && v' == v
      else if Names(v.tables[t].entries, fd) then r == Answer(Err(EBusy)) && v' == v
      else PlacedAt(v, t, fd, e, memory, r, v')
    case GetCmd(t, fd) =>
      var q := v.tables[t].entries;
      if Names(q, fd) then r == Got(q[fd]) && v' == v.(handles := v.handles + multiset{q[fd]})
      else r == Got(0) && v' == v
    case CloseCmd(t, fd) =>
      if fd < 0 then r == Answer(Err(EInval)) && v' == v
      else if !Names(v.tables[t].entries, fd) then r == Answer(Err(EBadf)) && v' == v
      else r == Answer(Okay) && SlotChanged(v, v', t, fd, 0)
    case DupCmd(t, fd, memory) =>
      var q := v.tables[t].entries;
      if !Names(q, fd) then r == Answer(Err(EBadf)) && v' == v
      else exists k :: FirstEmpty(q, k) && PlacedAt(v, t, k, q[fd], memory, r, v')
    case Dup2Cmd(t, fd, to, memory) =>
      var q := v.tables[t].entries;
      if to < 0 then r == Answer(Err(EInval)) && v' == v
      else if !Names(q, fd) then r == Answer(Err(EBadf)) && v' == v
      else PlacedAt(v, t, to, q[fd], memory, r, v')
    case CloneCmd(t, memory) =>
      if !memory then r == NoTable && v' == v
      else && r == Made(|v.tables|) && v'.handles == v.handles && |v'.tables| == |v.tables| + 1
           && v'.tables[..|v.tables|] == v.tables && v'.tables[|v.tables|] == Table(v.tables[t].entries, 1)
    case RefCmd(t) => r == Done && Recounted(v, v', t, v.tables[t].refcount + 1, v.tables[t].entries)
    case UnrefCmd(t) =>
      var n := v.tables[t].refcount;
      r == Done && Recounted(v, v', t, n - 1, if n > 1 then v.tables[t].entries else [])
  }

  ghost predicate Recounted(v: View, v': View, t: nat, n: nat, q: seq<nat>)
    requires t < |v.tables|
  {
    && |v'.tables| == |v.tables| && v'.handles == v.handles && v'.tables[t] == Table(q, n)
    && forall i :: 0 <= i < |v.tables| && i != t ==> v'.tables[i] == v.tables[i]
  }

  lemma HoldingIs(v: View, t: nat, k: nat, e: nat)
    requires t < |v.tables| && (k < |v.tables[t].entries| || k < MAX)
    ensures SlotChanged(v, v.(tables := Holding(v.tables, t, k, e)), t, k, e)
  {
  }

  /** Every call keeps its promise. */
  lemma StepPromised(v: View, c: Cmd)
    ensures if Runs(v, c) then Promised(v, c, Step(v, c).0, Step(v, c).1) else Step(v, c) == (Passed, v)
  {
    if Runs(v, c) {
      if c.InstallCmd? || c.InstallAtCmd? || c.DupCmd? || c.Dup2Cmd? {
        PlacingPromised(v, c);
      } else if c.CloseCmd? || c.RefCmd? || c.UnrefCmd? {
        ClosingPromised(v, c);
      } else {
        EntryPromised(v, c);
      }
    }
  }

  lemma ClosingPromised(v: View, c: Cmd)
    requires Runs(v, c) && (c.CloseCmd? || c.RefCmd? || c.UnrefCmd?)
    ensures Promised(v, c, Step(v, c).0, Step(v, c).1)
  {
    hide PlacedAt, FirstEmpty, Named;
  }

  lemma EntryPromised(v: View, c: Cmd)
    requires Runs(v, c) && (!c.OnTable() || c.GetCmd? || c.CloneCmd?)
    ensures Promised(v, c, Step(v, c).0, Step(v, c).1)
  {
    hide PlacedAt, FirstEmpty, SlotChanged, Recounted, Named;
  }

  lemma PlacingPromised(v: View, c: Cmd)
    requires Runs(v, c) && (c.InstallCmd? || c.InstallAtCmd? || c.DupCmd? || c.Dup2Cmd?)
    ensures Promised(v, c, Step(v, c).0, Step(v, c).1)
  {
    hide SlotChanged, FirstEmpty, LowestFree, Holding, Named;
    var t, q := c.table, v.tables[c.table].entries;
    match c
    case InstallCmd(_, e, memory) => InstallPlaced(v, t, e, memory);
    case InstallAtCmd(_, fd, e, memory) =>
      if fd >= 0 && (fd < |q| || fd < MAX) { HoldingIs(v, t, fd, e); }
    case DupCmd(_, fd, memory) =>
      if Names(q, fd) { InstallPlaced(v, t, q[fd], memory); }
    case Dup2Cmd(_, fd, to, memory) =>
      if Names(q, fd) && to >= 0 {
        if to < |q| || to < MAX { HoldingIs(v, t, to, q[fd]); }
        if fd == to { NothingChanged(v, t, fd); }
      }
  }

  lemma NothingChanged(v: View, t: nat, k: nat)
    requires t < |v.tables| && k < |v.tables[t].entries|
    ensures SlotChanged(v, v, t, k, v.tables[t].entries[k])
  {
  }

  lemma InstallPlaced(v: View, t: nat, e: nat, memory: bool)
    requires t < |v.tables|
    ensures var (r, tables) := Installing(v.tables, t, e, memory); var k := LowestFree(v.tables[t].entries);
      FirstEmpty(v.tables[t].entries, k) && PlacedAt(v, t, k, e, memory, Answer(r), v.(tables := tables))
  {
    var k := LowestFree(v.tables[t].entries);
    if k < |v.tables[t].entries| || k < MAX { HoldingIs(v, t, k, e); }
    hide Holding, SlotChanged;
  }

  /** A call on one table leaves every other as it was. */
  lemma StepLocal(v: View, c: Cmd, i: nat)
    requires i < |v.tables| && !c.Touches(i)
    ensures |Step(v, c).1.tables| >= |v.tables| && Step(v, c).1.tables[i] == v.tables[i]
  {
  }

  /** A run whose calls are all on other tables leaves a table as it was: a clone and its original are independent. */
  lemma {:induction false} RunLocal(v: View, cmds: seq<Cmd>, i: nat)
    requires i < |v.tables| && forall k :: 0 <= k < |cmds| ==> !cmds[k].Touches(i)
    ensures |RunOf(v, cmds).1.tables| >= |v.tables| && RunOf(v, cmds).1.tables[i] == v.tables[i]
    decreases |cmds|
  {
    if cmds != [] {
      var n := |cmds| - 1;
      hide Step;
      RunLocal(v, cmds[..n], i);
      StepLocal(RunOf(v, cmds[..n]).1, cmds[n], i);
    }
  }

  lemma CloneStep(v: View, t: nat) returns (v': View)
    requires t < |v.tables| && v.tables[t].refcount > 0
    ensures v' == v.(tables := v.tables + [Table(v.tables[t].entries, 1)])
    ensures Step(v, CloneCmd(t, true)) == (Made(|v.tables|), v')
  {
    v' := v.(tables := v.tables + [Table(v.tables[t].entries, 1)]);
  }

  /** Every descriptor of a clone names what it named in the original, and the clone's own later calls do not change the
      original. */
  lemma CloneIndependent(v: View, t: nat, cmds: seq<Cmd>)
    requires t < |v.tables| && v.tables[t].refcount > 0
    requires forall k :: 0 <= k < |cmds| ==>
      !cmds[k].OnTable() || cmds[k].CloneCmd? || cmds[k].table == |v.tables|
    ensures var (made, v') := Step(v, CloneCmd(t, true));
      made == Made(|v.tables|) && v'.tables[|v.tables|].entries == v.tables[t].entries
      && |RunOf(v', cmds).1.tables| > |v.tables| && RunOf(v', cmds).1.tables[..|v.tables|] == v.tables
  {
    hide Step;
    var v' := CloneStep(v, t);
    RunLocal(v', cmds, t);
    forall i | 0 <= i < |v.tables| ensures RunOf(v', cmds).1.tables[i] == v.tables[i] {
      RunLocal(v', cmds, i);
    }
  }

  /** Whatever is closed, replaced or given up meanwhile, nobody but its holder takes a handle away. */
  lemma {:induction false} HandlesOutlive(v: View, cmds: seq<Cmd>, e: nat)
    requires forall k :: 0 <= k < |cmds| ==> cmds[k] != DropCmd(e)
    ensures RunOf(v, cmds).1.handles[e] >= v.handles[e]
    decreases |cmds|
  {
    if cmds != [] {
      HandlesOutlive(v, cmds[..|cmds|-1], e);
      assert cmds[|cmds|-1] != DropCmd(e);
      hide Runs, Reacting;
    }
  }

  /** All descriptor tables and all open entries of the system. The reference counts are not mentioned below: the slots
      and the handles determine them. */
  class FdWorld {
    var tables: seq<Table>
    var refs: map<nat, nat>
    ghost var handles: multiset<nat>

    ghost predicate Valid()
      reads this
    {
      Balanced(tables, refs, handles) && forall i :: 0 <= i < |tables| ==> TableOk(tables[i])
    }

    predicate Live(t: nat)
      reads this`tables
    {
      t < |tables| && tables[t].refcount > 0
    }

    constructor ()
      ensures Valid() && tables == [] && refs == map[] && handles == multiset{}
    {
      tables, refs, handles := [], map[], multiset{};
    }

    /** fdtable_create */
    method Create(memory: bool) returns (r: Reply)
      requires Valid()
      modifies this`tables
      ensures Valid() && (r, tables) == Making(old(tables), Blank(INITIAL), memory)
    {
      hide Balanced;
      if !memory {
        return NoTable;
      }
      NewTableOk(tables, refs, handles, INITIAL);
      r := Made(|tables|);
      tables := tables + [Table(Blank(INITIAL), 1)];
    }

    method TableRef(t: nat)
      requires Valid() && Live(t)
      modifies this`tables
      ensures Valid() && tables == old(tables)[t := old(tables)[t].(refcount := old(tables)[t].refcount + 1)]
    {
      hide Balanced;
      RecountOk(tables, refs, handles, t, tables[t].refcount + 1);
      tables := tables[t := tables[t].(refcount := tables[t].refcount + 1)];
    }

    /** A new entry, at an address not in use, with the opener's reference. */
    method Open(e: nat)
      requires Valid() && e != 0 && e !in refs
      modifies this`refs, this`handles
      ensures Valid() && handles == old(handles) + multiset{e}
    {
      HoldOk(tables, refs, handles, e);
      hide Balanced;
      refs, handles := refs[e := 1], handles + multiset{e};
    }

    method EntryRef(e: nat)
      requires Valid() && e in refs
      modifies this`refs, this`handles
      ensures Valid() && handles == old(handles) + multiset{e}
    {
      HoldOk(tables, refs, handles, e);
      refs, handles := refs[e := refs[e] + 1], handles + multiset{e};
    }

    /** Gives up a handle; the entry is freed exactly when no slot and no handle is left. */
    method EntryUnref(e: nat)
      requires Valid() && e in handles
      modifies this`refs, this`handles
      ensures Valid() && handles == old(handles) - multiset{e}
      ensures e !in refs <==> Named(tables, e) == 0 && handles[e] == 0
    {
      DropOk(tables, refs, handles, e);
      refs := refs[e := refs[e] - 1];
      handles := handles - multiset{e};
      if refs[e] == 0 {
        refs := refs - {e};
      }
    }

    /** fdtable_unref: with the last reference the table goes, and with it its references to entries. */
    method TableUnref(t: nat)
      requires Valid() && Live(t)
      modifies this
      ensures Valid() && handles == old(handles)
      ensures tables == Releasing(old(tables), t)
    {
      hide Balanced;
      var remaining := tables[t].refcount - 1;
      if remaining > 0 {
        RecountOk(tables, refs, handles, t, remaining);
        tables := tables[t := tables[t].(refcount := remaining)];
        return;
      }
      DismantleOk(tables, refs, handles, t);
      var entries := tables[t].entries;
      handles := handles + multiset(NonZero(entries));
      tables := tables[t := Table([], 0)];
      UnrefAll(entries, old(handles));
    }

    /** The loop of fdtable_unref. */
    method UnrefAll(entries: seq<nat>, ghost rest: multiset<nat>)
      requires Valid() && handles == rest + multiset(NonZero(entries))
      modifies this`refs, this`handles
      ensures Valid() && handles == rest
    {
      hide Balanced, NonZero;
      var i := 0;
      assert entries[0..] == entries;
      while i < |entries|
        invariant i <= |entries| && Valid() && handles == rest + multiset(NonZero(entries[i..]))
      {
        NonZeroTail(entries, i);
        if entries[i] != 0 {
          EntryUnref(entries[i]);
        }
        i := i + 1;
      }
      NonZeroEnd();
      assert entries[i..] == [];
    }

    /** fdtable_grow */
    method Grow(t: nat, min: nat, memory: bool) returns (r: Growth)
      requires Valid() && Live(t) && |tables[t].entries| < min
      modifies this`tables
      ensures Valid() && r == Growing(min, memory)
      ensures tables == if r.Denied? then old(tables)
        else old(tables)[t := old(tables)[t].(entries := Resized(old(tables)[t].entries, min))]
    {
      hide Balanced;
      if min > MAX {
        return Denied(EMfile);
      }
      var capacity := |tables[t].entries|;
      var larger := 2 * capacity;
      if larger < min {
        larger := min;
      }
      if larger > MAX {
        larger := MAX;
      }
      if !memory {
        return Denied(ENoMem);
      }
      GrowOk(tables, refs, handles, t, larger - capacity);
      tables := tables[t := tables[t].(entries := tables[t].entries + Blank(larger - capacity))];
      r := Grown;
    }

    method Put(t: nat, k: nat, e: nat)
      requires Valid() && Live(t) && k < |tables[t].entries| && tables[t].entries[k] == 0 && e in refs
      modifies this`tables, this`refs
      ensures Valid() && tables == WithSlot(old(tables), t, k, e) && e in refs
    {
      PutOk(tables, refs, handles, t, k, e);
      tables := tables[t := tables[t].(entries := tables[t].entries[k := e])];
      refs := refs[e := refs[e] + 1];
    }

    /** fdtable_install: the lowest free descriptor, of a larger table if need be. */
    method Install(t: nat, e: nat, memory: bool) returns (r: Result)
      requires Valid() && Live(t) && e in refs
      modifies this`tables, this`refs
      ensures Valid() && e in refs && (r, tables) == Installing(old(tables), t, e, memory)
    {
      hide Balanced;
      ghost var q := tables[t].entries;
      var i := 0;
      while i < |tables[t].entries|
        invariant i <= |q| && Valid() && tables == old(tables) && refs == old(refs) && forall j :: 0 <= j < i ==>
          q[j] != 0
        decreases |q| - i
      {
        if tables[t].entries[i] == 0 {
          LowestFreeIs(q, i);
          Put(t, i, e);
          assert tables == Holding(old(tables), t, i, e);
          return Fd(i);
        }
        i := i + 1;
      }
      LowestFreeIs(q, i);
      var fd := |tables[t].entries|;
      var g := Grow(t, fd + 1, memory);
      if g.Denied? {
        return Err(g.errno);
      }
      Put(t, fd, e);
      assert tables == Holding(old(tables), t, fd, e);
      r := Fd(fd);
    }

    /** fdtable_install_at */
    method InstallAt(t: nat, fd: int, e: nat, memory: bool) returns (r: Result)
      requires Valid() && Live(t) && e in refs
      modifies this`tables, this`refs
      ensures Valid() && e in refs && (r, tables) == InstallingAt(old(tables), t, fd, e, memory)
    {
      hide Balanced;
      if fd < 0 {
        return Err(EInval);
      }
      if fd >= |tables[t].entries| {
        var g := Grow(t, fd + 1, memory);
        if g.Denied? {
          return Err(g.errno);
        }
      }
      if tables[t].entries[fd] != 0 {
        return Err(EBusy);
      }
      Put(t, fd, e);
      assert tables == Holding(old(tables), t, fd, e);
      r := Fd(fd);
    }

    /** fdtable_get: the entry with a reference of the caller's own, or 0. */
    method Get(t: nat, fd: int) returns (e: nat)
      requires Valid() && Live(t)
      modifies this`refs, this`handles
      ensures Valid() && e == Slot(tables[t].entries, fd)
      ensures handles == if e == 0 then old(handles) else old(handles) + multiset{e}
      ensures e != 0 ==> e in refs
    {
      hide Balanced;
      if fd < 0 {
        return 0;
      }
      e := 0;
      if fd < |tables[t].entries| {
        e := tables[t].entries[fd];
        if e != 0 {
          SlotsAreAlive(tables, refs, handles, t, fd);
          EntryRef(e);
          HandleIsAlive(e);
        }
      }
    }

    lemma HandleIsAlive(e: nat)
      requires Valid() && e in handles
      ensures e != 0 && e in refs
    {
      assert e != 0 ==> Count(refs, e) == Named(tables, e) + handles[e];
    }

    /** fdtable_close */
    method Close(t: nat, fd: int) returns (r: Result)
      requires Valid() && Live(t)
      modifies this
      ensures Valid() && handles == old(handles) && (r, tables) == Closing(old(tables), t, fd)
    {
      hide Balanced;
      if fd < 0 {
        return Err(EInval);
      }
      if fd >= |tables[t].entries| || tables[t].entries[fd] == 0 {
        return Err(EBadf);
      }
      TakeOutOk(tables, refs, handles, t, fd);
      var e := tables[t].entries[fd];
      tables := tables[t := tables[t].(entries := tables[t].entries[fd := 0])];
      handles := handles + multiset{e};
      EntryUnref(e);
      r := Okay;
    }

    /** fdtable_dup */
    method Dup(t: nat, oldfd: int, memory: bool) returns (r: Result)
      requires Valid() && Live(t)
      modifies this
      ensures Valid() && handles == old(handles) && (r, tables) == Duplicating(old(tables), t, oldfd, memory)
    {
      hide Balanced, Resized;
      var e := Get(t, oldfd);
      if e == 0 {
        return Err(EBadf);
      }
      r := Install(t, e, memory);
      EntryUnref(e);
    }

    /** fdtable_dup2: whatever stood at the new descriptor is closed first. */
    method Dup2(t: nat, oldfd: int, newfd: int, memory: bool) returns (r: Result)
      requires Valid() && Live(t)
      modifies this
      ensures Valid() && handles == old(handles) && (r, tables) == Redirecting(old(tables), t, oldfd, newfd, memory)
    {
      hide Balanced, Resized;
      if newfd < 0 {
        return Err(EInval);
      }
      var e := Get(t, oldfd);
      if e == 0 {
        return Err(EBadf);
      }
      if oldfd == newfd {
        EntryUnref(e);
        return Fd(newfd);
      }
      r := Replace(t, newfd, e, memory);
      EntryUnref(e);
    }

    /** Closes a descriptor and installs another entry there. */
    method Replace(t: nat, fd: nat, e: nat, memory: bool) returns (r: Result)
      requires Valid() && Live(t) && e in handles
      modifies this
      ensures Valid() && handles == old(handles) && (r, tables) == Replacing(old(tables), t, fd, e, memory)
    {
      hide Balanced, Resized;
      ghost var q: seq<nat> := tables[t].entries;
      var _ := Close(t, fd);
      HandleIsAlive(e);
      assert fd < |q| ==> tables[t].entries == q[fd := 0] && q[fd := 0][fd := e] == q[fd := e];
      r := InstallAt(t, fd, e, memory);
      assert r.Fd? ==> tables == Holding(old(tables), t, fd, e);
      assert r.Err? ==> tables == old(tables);
    }

    /** fdtable_clone: a copy of the slots, each with a reference of its own. */
    method Clone(t: nat, memory: bool) returns (r: Reply)
      requires Valid() && Live(t)
      modifies this`tables, this`refs
      ensures Valid() && (r, tables) == Making(old(tables), old(tables)[t].entries, memory)
    {
      hide Balanced;
      if !memory {
        return NoTable;
      }
      var entries := tables[t].entries;
      NewTableOk(tables, refs, handles, |entries|);
      var t' := |tables|;
      r := Made(t');
      tables := tables + [Table(Blank(|entries|), 1)];
      var i := 0;
      assert entries[..0] + Blank(|entries| - 0) == Blank(|entries|);
      while i < |entries|
        invariant i <= |entries| && Valid() && tables == old(tables) + [Table(entries[..i] + Blank(|entries| - i), 1)]
      {
        ghost var ts, now := tables, Table(entries[..i+1] + Blank(|entries| - i - 1), 1);
        assert tables[t].entries == entries;
        CopyStep(entries, i);
        if entries[i] != 0 {
          SlotsAreAlive(tables, refs, handles, t, i);
          Put(t', i, entries[i]);
        }
        assert tables == ts[t' := now];
        i := i + 1;
      }
      assert entries[..i] + Blank(0) == entries;
    }

    ghost function Abs(): View
      reads this`tables, this`handles
    {
      View(tables, handles)
    }

    /** One call; `held` are the handles the callers have. */
    method Perform(c: Cmd, held: multiset<nat>) returns (r: Reply, held': multiset<nat>)
      requires Valid() && held == handles
      modifies this
      ensures Valid() && held' == handles && (r, Abs()) == Step(old(Abs()), c)
      ensures Runs(old(Abs()), c) ==> Promised(old(Abs()), c, r, Abs())
    {
      StepPromised(Abs(), c);
      hide Promised, Balanced, Named, Installing, InstallingAt, Closing, Duplicating, Redirecting, Releasing, Slot,
           Making;
      if !c.OnTable() {
        r, held' := OnEntry(c, held);
        return;
      }
      held' := held;
      if !Live(c.table) {
        return Passed, held;
      }
      match c
      case InstallCmd(t, e, memory) => r := PutIn(c);
      case InstallAtCmd(t, fd, e, memory) => r := PutIn(c);
      case GetCmd(t, fd) =>
        var e := Get(t, fd);
        r := Got(e);
        if e != 0 {
          held' := held + multiset{e};
        }
      case CloseCmd(t, fd) =>
        var a := Close(t, fd);
        r := Answer(a);
      case DupCmd(t, fd, memory) =>
        var a := Dup(t, fd, memory);
        r := Answer(a);
      case Dup2Cmd(t, fd, to, memory) =>
        var a := Dup2(t, fd, to, memory);
        r := Answer(a);
      case CloneCmd(t, memory) => r := Clone(t, memory);
      case RefCmd(t) =>
        TableRef(t);
        r := Done;
      case UnrefCmd(t) =>
        TableUnref(t);
        r := Done;
    }

    /** The calls that are on no table that is there. */
    method OnEntry(c: Cmd, held: multiset<nat>) returns (r: Reply, held': multiset<nat>)
      requires Valid() && held == handles && !c.OnTable()
      modifies this
      ensures Valid() && held' == handles && (r, Abs()) == Step(old(Abs()), c)
    {
      hide Balanced, Named, Making;
      held' := held;
      if c.CreateCmd? {
        r := Create(c.memory);
        return;
      }
      EntryInUse(c.entry);
      match c
      case OpenCmd(e) =>
        if e == 0 || e in refs {
          return Passed, held;
        }
        Open(e);
        r, held' := Done, held + multiset{e};
      case HoldCmd(e) =>
        if e == 0 || e !in refs {
          return Passed, held;
        }
        EntryRef(e);
        r, held' := Done, held + multiset{e};
      case DropCmd(e) =>
        if e !in held {
          return Passed, held;
        }
        EntryUnref(e);
        r, held' := Done, held - multiset{e};
    }

    /** The calls that put an entry into a table. */
    method PutIn(c: Cmd) returns (r: Reply)
      requires Valid() && (c.InstallCmd? || c.InstallAtCmd?) && Live(c.table)
      modifies this`tables, this`refs
      ensures Valid() && (r, Abs()) == Step(old(Abs()), c)
    {
      hide Balanced, Named, Installing, InstallingAt;
      EntryInUse(c.entry);
      if c.entry == 0 || c.entry !in refs {
        return Passed;
      }
      if c.InstallCmd? {
        var a := Install(c.table, c.entry, c.memory);
        r := Answer(a);
      } else {
        var a := InstallAt(c.table, c.fd, c.entry, c.memory);
        r := Answer(a);
      }
    }

    lemma EntryInUse(e: nat)
      requires Valid()
      ensures e != 0 ==> Count(refs, e) == Named(tables, e) + handles[e] && (e in refs <==> Abs().Uses(e) > 0)
    {
      assert e != 0 ==> Count(refs, e) == Named(tables, e) + handles[e];
    }

    /** Any run: every call answers, and leaves the tables and the handles, as described. Each entry's count is the
        number of slots that name it plus the handles outstanding, and it is alive exactly while that is not 0; once
        every table and every handle has been given up nothing is left. */
    method Run(cmds: seq<Cmd>, held0: multiset<nat>) returns (replies: seq<Reply>, held: multiset<nat>)
      requires Valid() && held0 == handles
      modifies this
      ensures Valid() && held == handles && (replies, Abs()) == RunOf(old(Abs()), cmds)
      ensures forall e :: e != 0 ==> Count(refs, e) == Named(tables, e) + handles[e]
      ensures forall e :: e != 0 ==> (e in refs <==> Abs().Uses(e) > 0)
      ensures (forall i :: 0 <= i < |tables| ==> tables[i].refcount == 0) && handles == multiset{} ==> refs == map[]
    {
      hide Balanced, Step;
      replies, held := [], held0;
      for i := 0 to |cmds|
        invariant Valid() && held == handles && (replies, Abs()) == RunOf(old(Abs()), cmds[..i])
      {
        assert cmds[..i+1][..i] == cmds[..i];
        var r;
        r, held := Perform(cmds[i], held);
        replies := replies + [r];
      }
      assert cmds[..|cmds|] == cmds;
      forall e | e != 0
        ensures Count(refs, e) == Named(tables, e) + handles[e] && (e in refs <==> Abs().Uses(e) > 0)
      {
        EntryInUse(e);
      }
      if (forall i :: 0 <= i < |tables| ==> tables[i].refcount == 0) && handles == multiset{} {
        NothingLeaks(tables, refs, handles);
      }
    }
  }

  lemma CopyStep(q: seq<nat>, i: nat)
    requires i < |q|
    ensures var was, now := q[..i] + Blank(|q| - i), q[..i+1] + Blank(|q| - i - 1);
      was[i] == 0 && was[i := q[i]] == now && (q[i] == 0 ==> was == now)
  {
  }

  lemma NonZeroTail(q: seq<nat>, i: nat)
    requires i < |q|
    ensures multiset(NonZero(q[i..]))
      == multiset(NonZero(q[i+1..])) + (if q[i] == 0 then multiset{} else multiset{q[i]})
  {
    assert q[i..][1..] == q[i+1..];
  }

  lemma NonZeroEnd()
    ensures NonZero([]) == []
  {
  }
}
