/** Four-level page tables as values: which table covers which pages, and the partial map
    from pages to frames that the tables denote. Only the user half is modelled. */
module PageTables {
  import opened FrameStates
  import Seqs

  const ENTRIES := 512
  /** Pages in the user half: 256 * 512^3. */
  const PAGES := 0x8_0000_0000

  datatype PFlags = PFlags(write: bool, user: bool, nx: bool, uncached: bool)

  datatype Pte = Absent | Present(frame: nat, flags: PFlags)

  type Tables = map<nat, seq<Pte>>

  /** Where a table hangs: the table of `root` at `level` that covers the pages whose number
      shifted right by 9 * level is `prefix`. */
  datatype Pos = Pos(root: nat, level: nat, prefix: nat)

  datatype Loc = Loc(root: nat, page: nat)

  datatype Leaf = Leaf(frame: nat, flags: PFlags)

  function Child(q: Pos, i: nat): Pos
    requires q.level > 0
  {
    Pos(q.root, q.level - 1, q.prefix * 512 + i)
  }

  function Parent(q: Pos): Pos {
    Pos(q.root, q.level + 1, q.prefix / 512)
  }

  /** How many tables of a level the user half has room for. */
  function Limit(level: nat): nat {
    if level == 4 then 1 else if level == 3 then 256 else if level == 2 then 0x2_0000 else 0x400_0000
  }

  /** Bits 12, 21, 30 and 39 upwards of an address select the entry at levels 1 to 4. */
  function Index(vaddr: nat, level: nat): (i: nat)
    requires 1 <= level <= 4
    ensures i < ENTRIES
  {
    if level == 1 then vaddr / 0x1000 % 512
    else if level == 2 then vaddr / 0x20_0000 % 512
    else if level == 3 then vaddr / 0x4000_0000 % 512
    else vaddr / 0x80_0000_0000 % 512
  }

  /** The position of the table that covers `vaddr` at `level`. */
  function Covering(root: nat, vaddr: nat, level: nat): Pos
    requires 1 <= level <= 4
  {
    Pos(root, level,
        if level == 1 then vaddr / 0x20_0000
        else if level == 2 then vaddr / 0x4000_0000
        else if level == 3 then vaddr / 0x80_0000_0000
        else vaddr / 0x1_0000_0000_0000)
  }

  predicate UserAddress(vaddr: nat) { vaddr / 0x1000 < PAGES }

  /** One step of the walk goes to the covering table of the next level. */
  lemma CoveringStep(root: nat, vaddr: nat, level: nat)
    requires 1 <= level <= 4 && UserAddress(vaddr)
    ensures Covering(root, vaddr, level).prefix < Limit(level)
    ensures level > 1 ==>
      Child(Covering(root, vaddr, level), Index(vaddr, level)) == Covering(root, vaddr, level - 1)
    ensures level < 4 ==> Parent(Covering(root, vaddr, level)) == Covering(root, vaddr, level + 1)
  {
    assert vaddr < 0x8000_0000_0000;
  }

  /** The four indices determine the page: two addresses that agree at every level share it. */
  lemma IndicesDeterminePage(v: nat, w: nat)
    requires UserAddress(v) && UserAddress(w)
    requires forall level :: 1 <= level <= 4 ==> Index(v, level) == Index(w, level)
    ensures v / 0x1000 == w / 0x1000
  {
    assert Covering(0, v, 1).prefix == Covering(0, w, 1).prefix by {
      for level := 4 downto 1
        invariant Covering(0, v, level).prefix == Covering(0, w, level).prefix
      {
        CoveringStep(0, v, level + 1);
        CoveringStep(0, w, level + 1);
      }
    }
    assert Index(v, 1) == Index(w, 1);
    PageOfLeaf(v);
    PageOfLeaf(w);
  }

  lemma PageOfLeaf(vaddr: nat)
    ensures vaddr / 0x1000 / 512 == Covering(0, vaddr, 1).prefix
    ensures vaddr / 0x1000 % 512 == Index(vaddr, 1)
  {
  }

  /** The tables of each root form a tree: `at` finds the frame of a position, `pos` the
      position of a frame, and an entry is present exactly when the table below it exists. */
  ghost predicate Tree(tables: Tables, at: map<Pos, nat>, pos: map<nat, Pos>) {
    && pos.Keys == tables.Keys
    && (forall f :: f in pos ==> pos[f] in at && at[pos[f]] == f)
    && (forall q :: q in at ==> at[q] in pos && pos[at[q]] == q)
    && (forall f :: f in tables ==> |tables[f]| == ENTRIES)
    && (forall q :: q in at ==> 1 <= q.level <= 4 && q.prefix < Limit(q.level))
    && (forall q :: q in at && q.level == 4 ==> at[q] == q.root)
    && (forall q {:trigger Parent(q)} :: q in at && q.level < 4 ==> Parent(q) in at)
    && (forall q, i :: q in at && q.level > 1 && 0 <= i < ENTRIES ==> Entry(tables, at, q, i))
  }

  lemma AtTable(tables: Tables, at: map<Pos, nat>, pos: map<nat, Pos>, c: Pos)
    requires Tree(tables, at, pos) && c in at
    ensures at[c] in tables && |tables[at[c]]| == ENTRIES
  {
  }

  ghost predicate Entry(tables: Tables, at: map<Pos, nat>, q: Pos, i: nat)
    requires q in at && q.level > 1 && i < ENTRIES
  {
    at[q] in tables && |tables[at[q]]| == ENTRIES &&
    match tables[at[q]][i]
    case Absent => Child(q, i) !in at
    case Present(f, _) => Child(q, i) in at && at[Child(q, i)] == f
  }

  // ---- the access an address has

  /** What two entries on the way to a page grant together. */
  function Both(upper: PFlags, lower: PFlags): PFlags {
    PFlags(upper.write && lower.write, upper.user && lower.user, upper.nx || lower.nx, lower.uncached)
  }

  /** `via` has the flags of the entry that leads to each table below a root. Such an entry is writable and executable,
      so that it is up to the leaf whether a page is. */
  ghost predicate Leads(tables: Tables, at: map<Pos, nat>, via: map<Pos, PFlags>) {
    && (forall q :: q in via <==> q in at && q.level < 4)
    && (forall q :: q in via ==> via[q] == PFlags(true, via[q].user, false, false))
    && (forall q, i :: q in at && q.level > 1 && 0 <= i < ENTRIES ==> Led(tables, at, via, q, i))
  }

  ghost predicate Led(tables: Tables, at: map<Pos, nat>, via: map<Pos, PFlags>, q: Pos, i: nat)
    requires q in at && q.level > 1 && i < ENTRIES
  {
    at[q] in tables && |tables[at[q]]| == ENTRIES &&
    (tables[at[q]][i].Present? ==> Child(q, i) in via && via[Child(q, i)] == tables[at[q]][i].flags)
  }

  /** What the entries from the top down to the table that covers `vaddr` at `level` grant together. */
  ghost function Granted(via: map<Pos, PFlags>, root: nat, vaddr: nat, level: nat): PFlags
    requires 1 <= level <= 4
    decreases 4 - level
  {
    if level == 4 then PFlags(true, true, false, false)
    else if Covering(root, vaddr, level) in via
    then Both(Granted(via, root, vaddr, level + 1), via[Covering(root, vaddr, level)])
    else PFlags(false, false, true, false)
  }

  /** The access to an address whose level-1 entry has the flags `leaf`: all four entries on the way have a say. */
  ghost function Access(via: map<Pos, PFlags>, root: nat, vaddr: nat, leaf: PFlags): PFlags {
    Both(Granted(via, root, vaddr, 1), leaf)
  }

  /** The tables that user code cannot get past. */
  ghost function BarredOf(via: map<Pos, PFlags>): set<Pos> {
    set q | q in via && !via[q].user
  }

  /** User code gets past every table on the way to an address. */
  ghost predicate PathOpen(barred: set<Pos>, root: nat, vaddr: nat) {
    && Covering(root, vaddr, 1) !in barred && Covering(root, vaddr, 2) !in barred && Covering(root, vaddr, 3) !in barred
  }

  /** An address has the access its leaf gives, but for user code it takes an open path as well. */
  lemma AccessExact(tables: Tables, at: map<Pos, nat>, via: map<Pos, PFlags>, root: nat, vaddr: nat, leaf: PFlags)
    requires Leads(tables, at, via) && forall level :: 1 <= level <= 3 ==> Covering(root, vaddr, level) in at
    ensures Access(via, root, vaddr, leaf) == leaf.(user := leaf.user && PathOpen(BarredOf(via), root, vaddr))
  {
    var a, b, c := Covering(root, vaddr, 1), Covering(root, vaddr, 2), Covering(root, vaddr, 3);
    assert a in via && b in via && c in via;
    hide Covering;
    assert Granted(via, root, vaddr, 3) == Both(Granted(via, root, vaddr, 4), via[c]);
    assert Granted(via, root, vaddr, 2) == Both(Granted(via, root, vaddr, 3), via[b]);
  }

  /** The entries that were there keep their flags, and the new ones have the flags `hung`, all under `root`. */
  ghost predicate ViaGrown(via: map<Pos, PFlags>, via': map<Pos, PFlags>, root: nat, hung: PFlags) {
    && (forall q :: q in via ==> q in via' && via'[q] == via[q])
    && (forall q :: q in via' && q !in via ==> q.root == root && via'[q] == hung)
  }

  lemma ViaGrownNone(via: map<Pos, PFlags>, root: nat, hung: PFlags)
    ensures ViaGrown(via, via, root, hung)
  {
  }

  lemma ViaGrownTwice(via: map<Pos, PFlags>, via1: map<Pos, PFlags>, via2: map<Pos, PFlags>, root: nat, hung: PFlags)
    requires ViaGrown(via, via1, root, hung) && ViaGrown(via1, via2, root, hung)
    ensures ViaGrown(via, via2, root, hung)
  {
  }

  /** Some entries are gone, and the others keep their flags. */
  ghost predicate ViaLess(via: map<Pos, PFlags>, via': map<Pos, PFlags>) {
    forall q :: q in via' ==> q in via && via'[q] == via[q]
  }

  /** A table that user code cannot get past was one before, or hangs under one of `roots`. */
  ghost predicate NewlyBarred(barred: set<Pos>, barred': set<Pos>, roots: set<nat>) {
    forall q :: q in barred' ==> q in barred || q.root in roots
  }

  lemma NewlyBarredNone(barred: set<Pos>, roots: set<nat>)
    ensures NewlyBarred(barred, barred, roots)
  {
  }

  lemma FewerBarred(barred: set<Pos>, barred': set<Pos>, roots: set<nat>)
    requires barred' <= barred
    ensures NewlyBarred(barred, barred', roots)
  {
  }

  lemma WiderBarred(barred: set<Pos>, barred': set<Pos>, some: set<nat>, roots: set<nat>)
    requires NewlyBarred(barred, barred', some) && some <= roots
    ensures NewlyBarred(barred, barred', roots)
  {
  }

  lemma NewlyBarredTwice(barred: set<Pos>, barred1: set<Pos>, barred2: set<Pos>, some: set<nat>, roots: set<nat>)
    requires NewlyBarred(barred, barred1, roots) && NewlyBarred(barred1, barred2, some) && some <= roots
    ensures NewlyBarred(barred, barred2, roots)
  {
  }

  function BarredBy(user: bool, root: nat): set<nat> {
    if user then {} else {root}
  }

  /** A map for user code bars nothing, any other bars at most tables of its own root. */
  lemma GrownBarred(via: map<Pos, PFlags>, via': map<Pos, PFlags>, root: nat, user: bool)
    requires ViaGrown(via, via', root, PFlags(true, user, false, false))
    ensures NewlyBarred(BarredOf(via), BarredOf(via'), BarredBy(user, root))
    ensures BarredOf(via) <= BarredOf(via')
  {
  }

  lemma LessThenGrown(via: map<Pos, PFlags>, via1: map<Pos, PFlags>, via2: map<Pos, PFlags>, root: nat, user: bool)
    requires ViaLess(via, via1) && ViaGrown(via1, via2, root, PFlags(true, user, false, false))
    ensures NewlyBarred(BarredOf(via), BarredOf(via2), BarredBy(user, root))
  {
  }

  /** After a map the page has the access it was to have exactly when it is not for user code or the tables that were
      there already let user code past. */
  lemma MappedAccess(tables: Tables, at: map<Pos, nat>, via: map<Pos, PFlags>, via0: map<Pos, PFlags>,
                     root: nat, vaddr: nat, flags: PFlags)
    requires Leads(tables, at, via) && forall level :: 1 <= level <= 3 ==> Covering(root, vaddr, level) in at
    requires ViaGrown(via0, via, root, PFlags(true, flags.user, false, false))
    ensures Access(via, root, vaddr, flags) == flags <==> (flags.user ==> PathOpen(BarredOf(via0), root, vaddr))
  {
    AccessExact(tables, at, via, root, vaddr, flags);
    hide Covering, Access;
  }

  function LeafPos(l: Loc): Pos { Pos(l.root, 1, l.page / 512) }

  /** `view` is the partial map the level-1 tables denote. */
  ghost predicate Denotes(tables: Tables, at: map<Pos, nat>, view: map<Loc, Leaf>) {
    && (forall l :: l in view ==> LeafPos(l) in at)
    && (forall l: Loc :: LeafPos(l) in at ==> LeafEntry(tables, at, view, l))
  }

  ghost predicate LeafEntry(tables: Tables, at: map<Pos, nat>, view: map<Loc, Leaf>, l: Loc)
    requires LeafPos(l) in at
  {
    at[LeafPos(l)] in tables && |tables[at[LeafPos(l)]]| == ENTRIES &&
    match tables[at[LeafPos(l)]][l.page % 512]
    case Absent => l !in view
    case Present(f, flags) => l in view && view[l] == Leaf(f, flags)
  }

  /** The places that map a frame. */
  ghost function Mappers(view: map<Loc, Leaf>, f: nat): set<Loc> {
    set l | l in view && view[l].frame == f
  }

  /** Tables are frames with one reference and are mapped nowhere; a mapped frame is allocated
      and has at least one reference for each place that maps it. */
  ghost predicate FramesOk(s: State, tables: set<nat>, view: map<Loc, Leaf>) {
    && (forall f :: f in tables ==> f < |s.frames| && s.frames[f] == FRESH)
    && (forall l :: l in view ==> MappedOk(s, tables, view, view[l].frame))
  }

  ghost predicate MappedOk(s: State, tables: set<nat>, view: map<Loc, Leaf>, f: nat) {
    f < |s.frames| && f !in tables && s.frames[f].kind.Allocated? && s.frames[f].refs >= |Mappers(view, f)|
  }

  const EMPTY: seq<Pte> := seq(ENTRIES, _ => Absent)

  // ---- what changes of the tables do

  /** Hanging a fresh empty table below an absent entry keeps the tree ... */
  lemma AddTable(tables: Tables, at: map<Pos, nat>, pos: map<nat, Pos>, q: Pos, i: nat, f: nat, flags: PFlags)
    requires Tree(tables, at, pos)
    requires q in at && q.level > 1 && i < ENTRIES && tables[at[q]][i].Absent?
    requires f !in tables && Child(q, i).prefix < Limit(q.level - 1)
    ensures Tree(tables[f := EMPTY][at[q] := tables[at[q]][i := Present(f, flags)]],
                 at[Child(q, i) := f], pos[f := Child(q, i)])
  {
    var c := Child(q, i);
    var tables': Tables := tables[f := EMPTY][at[q] := tables[at[q]][i := Present(f, flags)]];
    var at' := at[c := f];
    assert Entry(tables, at, q, i);
    assert Parent(c) == q;
    forall p, j | p in at' && p.level > 1 && 0 <= j < ENTRIES ensures Entry(tables', at', p, j) {
      if p == c {
        assert Parent(Child(p, j)) == c;
      } else {
        assert Entry(tables, at, p, j);
        if p != q || i != j { assert Child(p, j) != c; }
      }
    }
  }

  lemma AddTableLeads(tables: Tables, at: map<Pos, nat>, pos: map<nat, Pos>, via: map<Pos, PFlags>,
                      q: Pos, i: nat, f: nat, user: bool)
    requires Tree(tables, at, pos) && Leads(tables, at, via)
    requires q in at && q.level > 1 && i < ENTRIES && tables[at[q]][i].Absent?
    requires f !in tables && q.level <= 4
    ensures var flags := PFlags(true, user, false, false);
      && Leads(tables[f := EMPTY][at[q] := tables[at[q]][i := Present(f, flags)]],
               at[Child(q, i) := f], via[Child(q, i) := flags])
      && ViaGrown(via, via[Child(q, i) := flags], q.root, flags)
  {
    var c, flags := Child(q, i), PFlags(true, user, false, false);
    var tables': Tables := tables[f := EMPTY][at[q] := tables[at[q]][i := Present(f, flags)]];
    var at', via' := at[c := f], via[c := flags];
    assert Entry(tables, at, q, i);
    assert Parent(c) == q;
    forall p, j | p in at' && p.level > 1 && 0 <= j < ENTRIES ensures Led(tables', at', via', p, j) {
      if p != c {
        assert Led(tables, at, via, p, j) && Entry(tables, at, p, j);
        if p != q || i != j { assert Child(p, j) != c; }
      }
    }
  }

  /** ... and changes no translation. */
  lemma AddTableView(tables: Tables, at: map<Pos, nat>, pos: map<nat, Pos>, view: map<Loc, Leaf>,
                     q: Pos, i: nat, f: nat, flags: PFlags)
    requires Tree(tables, at, pos) && Denotes(tables, at, view)
    requires q in at && q.level > 1 && i < ENTRIES && tables[at[q]][i].Absent?
    requires f !in tables && Child(q, i).prefix < Limit(q.level - 1)
    ensures Denotes(tables[f := EMPTY][at[q] := tables[at[q]][i := Present(f, flags)]],
                    at[Child(q, i) := f], view)
  {
    var c := Child(q, i);
    assert Entry(tables, at, q, i);
    var tables': Tables := tables[f := EMPTY][at[q] := tables[at[q]][i := Present(f, flags)]];
    var at' := at[c := f];
    forall l: Loc | LeafPos(l) in at' ensures LeafEntry(tables', at', view, l) {
      if LeafPos(l) != c {
        assert LeafEntry(tables, at, view, l);
        assert at[LeafPos(l)] != at[q];
      }
    }
  }

  /** A new table is the only one that can be vacant once its parent points to it. */
  lemma AddTableVacancy(tables: Tables, at: map<Pos, nat>, pos: map<nat, Pos>, q: Pos, i: nat, f: nat, flags: PFlags)
    requires Tree(tables, at, pos)
    requires q in at && q.level > 1 && i < ENTRIES && tables[at[q]][i].Absent?
    requires f !in tables && Child(q, i).prefix < Limit(q.level - 1)
    requires NoVacantBut(tables, at, q)
    ensures var tables' := tables[f := EMPTY][at[q] := tables[at[q]][i := Present(f, flags)]];
      && Tree(tables', at[Child(q, i) := f], pos[f := Child(q, i)])
      && NoVacantBut(tables', at[Child(q, i) := f], Child(q, i))
  {
    AddTable(tables, at, pos, q, i, f, flags);
    assert Entry(tables, at, q, i);
    var tables': Tables := tables[f := EMPTY][at[q] := tables[at[q]][i := Present(f, flags)]];
    assert tables'[at[q]][i].Present?;
  }

  /** Following an entry moves the exception down: the table the entry is in is not vacant. */
  lemma FollowVacancy(tables: Tables, at: map<Pos, nat>, pos: map<nat, Pos>, q: Pos, i: nat)
    requires Tree(tables, at, pos) && q in at && q.level > 1 && i < ENTRIES && Child(q, i) in at
    requires NoVacantBut(tables, at, q)
    ensures NoVacantBut(tables, at, Child(q, i))
  {
    assert Entry(tables, at, q, i);
    assert tables[at[q]][i].Present?;
  }

  /** The tables once entry `i` of table `t` points to the frame `f`, which holds `content`. */
  function Hung(tables: Tables, t: nat, i: nat, f: nat, content: seq<Pte>, flags: PFlags): Tables
    requires t in tables && i < |tables[t]|
  {
    tables[f := content][t := tables[t][i := Present(f, flags)]]
  }

  lemma HangTable(tables: Tables, at: map<Pos, nat>, pos: map<nat, Pos>, view: map<Loc, Leaf>, via: map<Pos, PFlags>,
                  q: Pos, i: nat, f: nat, flags: PFlags)
    requires Tree(tables, at, pos) && Denotes(tables, at, view) && Leads(tables, at, via)
    requires flags == PFlags(true, flags.user, false, false)
    requires q in at && q.level > 1 && i < ENTRIES && tables[at[q]][i].Absent?
    requires f !in tables && Child(q, i).prefix < Limit(q.level - 1)
    ensures at[q] in tables && at[q] != f && |tables[at[q]]| == ENTRIES
    ensures var tables' := Hung(tables, at[q], i, f, EMPTY, flags);
      var at', pos', via' := at[Child(q, i) := f], pos[f := Child(q, i)], via[Child(q, i) := flags];
      && Tree(tables', at', pos') && Denotes(tables', at', view) && Leads(tables', at', via')
      && ViaGrown(via, via', q.root, flags) && tables'.Keys == tables.Keys + {f}
      && (NoVacantBut(tables, at, q) ==> NoVacantBut(tables', at', Child(q, i)))
  {
    AddTable(tables, at, pos, q, i, f, flags);
    AtTable(tables, at, pos, q);
    assert q.level <= 4;
    hide Tree, Denotes, Leads, ViaGrown;
    AddTableView(tables, at, pos, view, q, i, f, flags);
    AddTableLeads(tables, at, pos, via, q, i, f, flags.user);
    if NoVacantBut(tables, at, q) {
      AddTableVacancy(tables, at, pos, q, i, f, flags);
    }
  }

  ghost predicate Vacant(t: seq<Pte>) {
    forall i :: 0 <= i < |t| ==> t[i].Absent?
  }

  ghost function Cut(tables: Tables, at: map<Pos, nat>, c: Pos): Tables
    requires c in at && Parent(c) in at && at[Parent(c)] in tables && |tables[at[Parent(c)]]| == 512
  {
    (tables - {at[c]})[at[Parent(c)] := tables[at[Parent(c)]][c.prefix % 512 := Absent]]
  }

  lemma VacantHasNoChildren(tables: Tables, at: map<Pos, nat>, pos: map<nat, Pos>, c: Pos, p: Pos)
    requires Tree(tables, at, pos) && c in at && Vacant(tables[at[c]])
    requires p in at && p.level < 4
    ensures Parent(p) != c
  {
    assert Child(Parent(p), p.prefix % 512) == p;
    if c.level > 1 { assert Entry(tables, at, c, p.prefix % 512); }
  }

  /** A table without present entries can be cut off: the tree stays a tree ... */
  lemma RemoveTable(tables: Tables, at: map<Pos, nat>, pos: map<nat, Pos>, c: Pos)
    requires Tree(tables, at, pos) && c in at && c.level < 4 && Vacant(tables[at[c]])
    ensures Parent(c) in at && at[Parent(c)] != at[c]
    ensures Tree(Cut(tables, at, c), at - {c}, pos - {at[c]})
  {
    var q, i := Parent(c), c.prefix % 512;
    assert q in at && at[q] != at[c];
    var tables' := Cut(tables, at, c);
    var at' := at - {c};
    assert Child(q, i) == c;
    forall p | p in at' && p.level < 4 ensures Parent(p) in at' {
      VacantHasNoChildren(tables, at, pos, c, p);
    }
    forall p, j | p in at' && p.level > 1 && 0 <= j < ENTRIES ensures Entry(tables', at', p, j) {
      CutEntry(tables, at, pos, c, p, j);
    }
  }

  lemma CutEntry(tables: Tables, at: map<Pos, nat>, pos: map<nat, Pos>, c: Pos, p: Pos, j: nat)
    requires Tree(tables, at, pos) && c in at && c.level < 4
    requires p in at && p != c && p.level > 1 && j < ENTRIES
    ensures Parent(c) in at && Entry(Cut(tables, at, c), at - {c}, p, j)
  {
    assert Parent(c) in at;
    assert Entry(tables, at, p, j);
    assert Child(Parent(c), c.prefix % 512) == c;
    if p != Parent(c) || j != c.prefix % 512 { assert Child(p, j) != c; }
  }

  lemma RemoveTableLeads(tables: Tables, at: map<Pos, nat>, pos: map<nat, Pos>, via: map<Pos, PFlags>, c: Pos)
    requires Tree(tables, at, pos) && c in at && c.level < 4 && Vacant(tables[at[c]]) && Leads(tables, at, via)
    ensures Parent(c) in at && Leads(Cut(tables, at, c), at - {c}, via - {c})
  {
    RemoveTable(tables, at, pos, c);
    var tables', at', via' := Cut(tables, at, c), at - {c}, via - {c};
    assert Child(Parent(c), c.prefix % 512) == c;
    forall p, j | p in at' && p.level > 1 && 0 <= j < ENTRIES ensures Led(tables', at', via', p, j) {
      assert Led(tables, at, via, p, j) && Entry(tables, at, p, j);
      if p != Parent(c) || j != c.prefix % 512 { assert Child(p, j) != c; }
    }
  }

  /** ... and no translation changes. */
  lemma RemoveTableView(tables: Tables, at: map<Pos, nat>, pos: map<nat, Pos>, view: map<Loc, Leaf>, c: Pos)
    requires Tree(tables, at, pos) && c in at && c.level < 4 && Vacant(tables[at[c]])
    requires Denotes(tables, at, view)
    ensures Parent(c) in at
    ensures Denotes(Cut(tables, at, c), at - {c}, view)
  {
    var tables' := Cut(tables, at, c);
    var at' := at - {c};
    forall l | l in view ensures LeafPos(l) in at' {
      assert LeafEntry(tables, at, view, l);
    }
    forall l: Loc | LeafPos(l) in at' ensures LeafEntry(tables', at', view, l) {
      assert LeafEntry(tables, at, view, l);
      assert at[LeafPos(l)] != at[Parent(c)] && at[LeafPos(l)] != at[c];
    }
  }

  function SetView(view: map<Loc, Leaf>, l: Loc, e: Pte): map<Loc, Leaf> {
    match e
    case Absent => view - {l}
    case Present(f, flags) => view[l := Leaf(f, flags)]
  }

  /** Writing a level-1 entry changes the translation of exactly one page. */
  lemma SetLeaf(tables: Tables, at: map<Pos, nat>, pos: map<nat, Pos>, view: map<Loc, Leaf>, l: Loc, e: Pte)
    requires Tree(tables, at, pos) && Denotes(tables, at, view) && LeafPos(l) in at
    ensures var t := at[LeafPos(l)];
      Tree(tables[t := tables[t][l.page % 512 := e]], at, pos)
    ensures var t := at[LeafPos(l)];
      Denotes(tables[t := tables[t][l.page % 512 := e]], at, SetView(view, l, e))
  {
    var t := at[LeafPos(l)];
    var tables' := tables[t := tables[t][l.page % 512 := e]];
    var view' := SetView(view, l, e);
    forall p, j | p in at && p.level > 1 && 0 <= j < ENTRIES ensures Entry(tables', at, p, j) {
      assert Entry(tables, at, p, j);
      assert at[p] != t;
    }
    forall k: Loc | LeafPos(k) in at ensures LeafEntry(tables', at, view', k) {
      assert LeafEntry(tables, at, view, k);
      if at[LeafPos(k)] == t { assert LeafPos(k) == LeafPos(l); }
    }
  }

  lemma SetLeafLeads(tables: Tables, at: map<Pos, nat>, pos: map<nat, Pos>, via: map<Pos, PFlags>, l: Loc, e: Pte)
    requires Tree(tables, at, pos) && Leads(tables, at, via) && LeafPos(l) in at
    ensures var t := at[LeafPos(l)]; Leads(tables[t := tables[t][l.page % 512 := e]], at, via)
  {
    var t := at[LeafPos(l)];
    var tables' := tables[t := tables[t][l.page % 512 := e]];
    forall p, j | p in at && p.level > 1 && 0 <= j < ENTRIES ensures Led(tables', at, via, p, j) {
      assert Led(tables, at, via, p, j);
      assert at[p] != t;
    }
  }

  /** No table below a root is without present entries, save perhaps the one at `but`. */
  ghost predicate NoVacantBut(tables: Tables, at: map<Pos, nat>, but: Pos) {
    forall q :: q in at && q.level < 4 && q != but ==> at[q] in tables && !Vacant(tables[at[q]])
  }

  lemma NotVacantHere(tables: Tables, at: map<Pos, nat>, pos: map<nat, Pos>, c: Pos)
    requires Tree(tables, at, pos) && NoVacantBut(tables, at, c) && (c in at ==> !Vacant(tables[at[c]]))
    ensures NoVacant(tables, at)
  {
  }

  ghost predicate NoVacant(tables: Tables, at: map<Pos, nat>) {
    NoVacantBut(tables, at, Pos(0, 4, 0))
  }

  /** Under a table that is not vacant some page is mapped ... */
  lemma {:induction false} MappedBelow(tables: Tables, at: map<Pos, nat>, pos: map<nat, Pos>,
                                       view: map<Loc, Leaf>, q: Pos) returns (l: Loc)
    requires Tree(tables, at, pos) && Denotes(tables, at, view) && NoVacant(tables, at)
    requires q in at && q.level < 4
    ensures l in view && l.root == q.root
    decreases q.level
  {
    var t := tables[at[q]];
    var i :| 0 <= i < |t| && t[i].Present?;
    if q.level == 1 {
      l := Loc(q.root, q.prefix * 512 + i);
      assert LeafPos(l) == q;
      assert LeafEntry(tables, at, view, l);
    } else {
      assert Entry(tables, at, q, i);
      l := MappedBelow(tables, at, pos, view, Child(q, i));
    }
  }

  /** ... so a root with nothing mapped has given back every other table. */
  lemma UnmappedRootIsBare(tables: Tables, at: map<Pos, nat>, pos: map<nat, Pos>, view: map<Loc, Leaf>, root: nat)
    requires Tree(tables, at, pos) && Denotes(tables, at, view) && NoVacant(tables, at)
    requires forall l :: l in view ==> l.root != root
    ensures forall f :: f in tables && pos[f].root == root ==> f == root
  {
    forall f | f in tables && pos[f].root == root ensures f == root {
      if pos[f].level < 4 {
        var l := MappedBelow(tables, at, pos, view, pos[f]);
      }
    }
  }

  // ---- counting the places that map a frame

  /** A free frame is no table and is mapped nowhere; taking it for a table disturbs nothing. */
  lemma AllocTableFrame(s: State, tables: set<nat>, view: map<Loc, Leaf>)
    requires Valid(s) && FramesOk(s, tables, view) && s.free != []
    ensures s.free[0] < |s.frames| && s.free[0] !in tables
    ensures FramesOk(Alloc(s), tables + {s.free[0]}, view)
    ensures SameExcess(s, tables, view, Alloc(s), tables + {s.free[0]}, view)
  {
    var f := s.free[0];
    assert f in s.free;
    forall l | l in view ensures MappedOk(Alloc(s), tables + {f}, view, view[l].frame) {
      assert MappedOk(s, tables, view, view[l].frame);
    }
  }

  lemma MappersAdd(view: map<Loc, Leaf>, l: Loc, leaf: Leaf, f: nat)
    requires l !in view
    ensures |Mappers(view[l := leaf], f)| == |Mappers(view, f)| + if leaf.frame == f then 1 else 0
  {
    var view' := view[l := leaf];
    if leaf.frame == f {
      assert Mappers(view', f) == Mappers(view, f) + {l};
    } else {
      assert Mappers(view', f) == Mappers(view, f);
    }
  }

  lemma MappersRemove(view: map<Loc, Leaf>, l: Loc, f: nat)
    requires l in view
    ensures |Mappers(view - {l}, f)| == |Mappers(view, f)| - if view[l].frame == f then 1 else 0
  {
    if view[l].frame == f {
      assert Mappers(view - {l}, f) == Mappers(view, f) - {l};
    } else {
      assert Mappers(view - {l}, f) == Mappers(view, f);
    }
  }

  // ---- reference counts

  /** References to a frame beyond one for each place that maps it and one if it is a table:
      what the rest of the kernel holds. */
  ghost function Excess(s: State, tables: set<nat>, view: map<Loc, Leaf>, f: nat): int
    requires f < |s.frames|
  {
    s.frames[f].refs - |Mappers(view, f)| - if f in tables then 1 else 0
  }

  /** Everybody keeps the references they had, and what is held stays what it was. */
  ghost predicate SameExcess(s: State, tables: set<nat>, view: map<Loc, Leaf>,
                             s': State, tables': set<nat>, view': map<Loc, Leaf>)
  {
    && |s'.frames| == |s.frames|
    && (forall f :: 0 <= f < |s.frames| ==> Excess(s', tables', view', f) == Excess(s, tables, view, f))
    && (forall f :: 0 <= f < |s.frames| && Held(s, tables, view, f) ==>
          f !in tables' && s'.frames[f].kind == s.frames[f].kind)
  }

  /** Someone beyond the page tables holds a reference to the frame. */
  ghost predicate Held(s: State, tables: set<nat>, view: map<Loc, Leaf>, f: nat) {
    f < |s.frames| && f !in tables && Excess(s, tables, view, f) >= 1
  }

  /** Dropping the mapping at `l` keeps the frames in order and everybody's own references. */
  lemma DropFrames(s: State, tables: set<nat>, view: map<Loc, Leaf>, l: Loc)
    requires Valid(s) && FramesOk(s, tables, view) && l in view
    ensures view[l].frame < |s.frames| && s.frames[view[l].frame].kind.Allocated?
    ensures Valid(Drop(s, view[l].frame)) && FramesOk(Drop(s, view[l].frame), tables, view - {l})
    ensures SameExcess(s, tables, view, Drop(s, view[l].frame), tables, view - {l})
  {
    var f := view[l].frame;
    assert MappedOk(s, tables, view, f) && l in Mappers(view, f);
    DropEffect(s, f);
    var s', view' := Drop(s, f), view - {l};
    forall g ensures |Mappers(view', g)| == |Mappers(view, g)| - if g == f then 1 else 0 {
      MappersRemove(view, l, g);
    }
    forall k | k in view' ensures MappedOk(s', tables, view', view'[k].frame) {
      assert MappedOk(s, tables, view, view[k].frame);
      assert k in Mappers(view', view[k].frame);
    }
  }

  /** Mapping an allocated frame at a place that maps nothing does so too. */
  lemma AddFrames(s: State, tables: set<nat>, view: map<Loc, Leaf>, l: Loc, leaf: Leaf)
    requires Valid(s) && FramesOk(s, tables, view) && l !in view
    requires leaf.frame < |s.frames| && leaf.frame !in tables && s.frames[leaf.frame].kind.Allocated?
    ensures Valid(Add(s, leaf.frame)) && FramesOk(Add(s, leaf.frame), tables, view[l := leaf])
    ensures SameExcess(s, tables, view, Add(s, leaf.frame), tables, view[l := leaf])
  {
    var f := leaf.frame;
    AddEffect(s, f);
    var s', view' := Add(s, f), view[l := leaf];
    forall g ensures |Mappers(view', g)| == |Mappers(view, g)| + if g == f then 1 else 0 {
      MappersAdd(view, l, leaf, g);
    }
    assert |Mappers(view, f)| <= s.frames[f].refs by {
      if k :| k in Mappers(view, f) { assert MappedOk(s, tables, view, f); }
    }
    forall k | k in view' ensures MappedOk(s', tables, view', view'[k].frame) {
      if k != l { assert MappedOk(s, tables, view, view[k].frame); }
    }
  }

  /** A table frame given back is free again. */
  lemma ReleaseTableFrame(s: State, tables: set<nat>, view: map<Loc, Leaf>, f: nat)
    requires Valid(s) && FramesOk(s, tables, view) && f in tables
    ensures f < |s.frames| && Valid(Release(s, f)) && FramesOk(Release(s, f), tables - {f}, view)
    ensures SameExcess(s, tables, view, Release(s, f), tables - {f}, view)
    ensures Release(s, f) == State(s.frames[f := RETURNED], [f] + s.free)
  {
    ReleaseValid(s, f);
    forall k | k in view ensures MappedOk(Release(s, f), tables - {f}, view, view[k].frame) {
      assert MappedOk(s, tables, view, view[k].frame);
    }
  }

  /** The frames taken for tables by a walk were free, so nobody's references change. */
  lemma GrowthExcess(s: State, tables: set<nat>, view: map<Loc, Leaf>, n: nat)
    requires Valid(s) && FramesOk(s, tables, view) && n <= |s.free|
    ensures SameExcess(s, tables, view, AllocN(s, n), tables + (set f | f in s.free[..n]), view)
  {
    forall f | 0 <= f < |s.frames| && f in s.free[..n] ensures f !in tables && |Mappers(view, f)| == 0 {
      assert f in s.free;
      forall l | l in view ensures view[l].frame != f { assert MappedOk(s, tables, view, view[l].frame); }
      assert Mappers(view, f) == {};
    }
  }

  lemma SameExcessNone(s: State, tables: set<nat>, view: map<Loc, Leaf>)
    ensures SameExcess(s, tables, view, s, tables, view)
  {
  }

  lemma SameExcessTwice(s: State, tables: set<nat>, view: map<Loc, Leaf>,
                        s1: State, tables1: set<nat>, view1: map<Loc, Leaf>,
                        s2: State, tables2: set<nat>, view2: map<Loc, Leaf>)
    requires SameExcess(s, tables, view, s1, tables1, view1)
    requires SameExcess(s1, tables1, view1, s2, tables2, view2)
    ensures SameExcess(s, tables, view, s2, tables2, view2)
  {
  }

  /** Frame `f` mapped in place of whatever is mapped at `l`. */
  ghost function Remapped(s: State, view: map<Loc, Leaf>, l: Loc, f: nat): State
    requires f < |s.frames| && (l in view ==> view[l].frame < |s.frames|)
  {
    Add(if l in view then Drop(s, view[l].frame) else s, f)
  }

  /** A frame may be mapped where it is already mapped only if someone else holds a reference:
      the old mapping is dropped first. */
  ghost predicate Mappable(s: State, tables: set<nat>, view: map<Loc, Leaf>, l: Loc, f: nat) {
    && f < |s.frames| && f !in tables && s.frames[f].kind.Allocated?
    && (l in view && view[l].frame == f ==> s.frames[f].refs > 1)
  }

  lemma MappableAfter(s: State, tables: set<nat>, view: map<Loc, Leaf>, l: Loc, f: nat, n: nat)
    requires Valid(s) && Mappable(s, tables, view, l, f) && n <= |s.free|
    ensures Mappable(AllocN(s, n), tables + (set g | g in s.free[..n]), view, l, f)
  {
    assert f !in s.free;
  }

  /** Replacing whatever is mapped at `l` by frame `f`. */
  lemma MapFrames(s: State, tables: set<nat>, view: map<Loc, Leaf>, l: Loc, leaf: Leaf)
    requires Valid(s) && FramesOk(s, tables, view) && Mappable(s, tables, view, l, leaf.frame)
    ensures l in view ==> view[l].frame < |s.frames| && s.frames[view[l].frame].kind.Allocated?
    ensures var s1 := if l in view then Drop(s, view[l].frame) else s;
      Valid(s1) && s1.frames[leaf.frame].kind.Allocated?
    ensures var s' := Remapped(s, view, l, leaf.frame);
      && Valid(s') && FramesOk(s', tables, view[l := leaf])
      && SameExcess(s, tables, view, s', tables, view[l := leaf])
  {
    if l in view {
      var f := view[l].frame;
      DropFrames(s, tables, view, l);
      var s1 := Drop(s, f);
      DropEffect(s, f);
      AddFrames(s1, tables, view - {l}, l, leaf);
      assert (view - {l})[l := leaf] == view[l := leaf];
      SameExcessTwice(s, tables, view, s1, tables, view - {l}, Add(s1, leaf.frame), tables, view[l := leaf]);
    } else {
      AddFrames(s, tables, view, l, leaf);
    }
  }

  /** The table frames in `gone` are free again and nothing else happened. */
  ghost predicate Returned(s: State, s': State, gone: set<nat>) {
    && |s'.frames| == |s.frames|
    && forall f :: 0 <= f < |s.frames| ==> s'.frames[f] == if f in gone then RETURNED else s.frames[f]
  }

  /** What giving tables back may do: no translation changes, roots stay, nobody's references change. */
  ghost predicate Pruned(view: map<Loc, Leaf>, s: State, tables: set<nat>, at: map<Pos, nat>,
                         s': State, tables': set<nat>, at': map<Pos, nat>)
  {
    && tables' <= tables
    && Returned(s, s', tables - tables')
    && SameExcess(s, tables, view, s', tables', view)
    && (forall q :: q in at' ==> q in at && at'[q] == at[q])
    && (forall q :: q in at && q.level == 4 ==> q in at')
  }

  /** How many of the tables on the way to an address are not there. */
  ghost function Missing(at: map<Pos, nat>, root: nat, vaddr: nat): (n: nat)
    ensures n <= 3
  {
    Absence(at, Covering(root, vaddr, 3)) + Absence(at, Covering(root, vaddr, 2)) + Absence(at,
      Covering(root, vaddr, 1))
  }

  ghost function Absence(at: map<Pos, nat>, q: Pos): (n: nat)
    ensures n <= 1
  {
    if q in at then 0 else 1
  }

  /** The frame of a table that is no longer there. */
  ghost function Lost(at: map<Pos, nat>, at': map<Pos, nat>, q: Pos): set<nat>
    requires q in at
  {
    if q in at' then {} else {at[q]}
  }

  lemma LostFrame(tables: Tables, at: map<Pos, nat>, pos: map<nat, Pos>,
                  tables': Tables, at': map<Pos, nat>, pos': map<nat, Pos>, q: Pos)
    requires Tree(tables, at, pos) && Tree(tables', at', pos')
    requires (forall p :: p in at' ==> p in at && at'[p] == at[p]) && q in at
    ensures Lost(at, at', q) <= tables.Keys - tables'.Keys
    ensures |Lost(at, at', q)| == Absence(at', q)
  {
    assert at[q] in tables' ==> q in at';
  }

  /** The frames of different positions are different. */
  lemma LostApart(tables: Tables, at: map<Pos, nat>, pos: map<nat, Pos>, at': map<Pos, nat>, q: Pos, p: Pos)
    requires Tree(tables, at, pos) && q in at && p in at && q != p
    ensures Lost(at, at', q) !! Lost(at, at', p)
  {
  }

  /** When a page goes, the tables on the way to it that go with it are room gained: enough to put them back. */
  lemma PathRoom(s: State, tables: Tables, at: map<Pos, nat>, pos: map<nat, Pos>, view: map<Loc, Leaf>, f: nat,
                 s': State, tables': Tables, at': map<Pos, nat>, pos': map<nat, Pos>, root: nat, vaddr: nat)
    requires Valid(s) && FramesOk(s, tables.Keys, view) && Tree(tables, at, pos) && UserAddress(vaddr)
    requires Valid(s') && Tree(tables', at', pos') && forall p :: p in at' ==> p in at && at'[p] == at[p]
    requires f < |s.frames| && s.frames[f].kind.Allocated? && f !in tables
    requires Returned(Drop(s, f), s', tables.Keys - tables'.Keys)
    requires Covering(root, vaddr, 1) in at && Covering(root, vaddr, 2) in at && Covering(root, vaddr, 3) in at
    ensures |s'.free| >= |s.free| + Missing(at', root, vaddr)
  {
    var p, q, r := Covering(root, vaddr, 3), Covering(root, vaddr, 2), Covering(root, vaddr, 1);
    LostFrame(tables, at, pos, tables', at', pos', p);
    LostFrame(tables, at, pos, tables', at', pos', q);
    LostFrame(tables, at, pos, tables', at', pos', r);
    LostApart(tables, at, pos, at', p, q);
    LostApart(tables, at, pos, at', p, r);
    LostApart(tables, at, pos, at', q, r);
    hide Tree, Lost, Covering, Absence;
    var more := Lost(at, at', p) + Lost(at, at', q) + Lost(at, at', r);
    DropEffect(s, f);
    assert |more| == Missing(at', root, vaddr);
    hide Drop, FrameStates.Valid, Missing;
    KeepsFree(s, f, s', tables.Keys - tables'.Keys, more, tables.Keys);
    RoomGained(s, s', more);
  }

  lemma KeepsFree(s: State, f: nat, s': State, gone: set<nat>, more: set<nat>, tables: set<nat>)
    requires Valid(s) && f < |s.frames| && s.frames[f].kind.Allocated? && Returned(Drop(s, f), s', gone)
    requires more <= gone <= tables && forall g :: g in tables ==> g < |s.frames| && s.frames[g] == FRESH
    ensures |s'.frames| == |s.frames|
    ensures forall g :: 0 <= g < |s.frames| && s.frames[g].kind.Free? ==> s'.frames[g].kind.Free?
    ensures forall g :: g in more ==> g < |s.frames| && !s.frames[g].kind.Free? && s'.frames[g].kind.Free?
  {
    DropEffect(s, f);
    hide Drop;
  }

  lemma PrunedNone(view: map<Loc, Leaf>, s: State, tables: set<nat>, at: map<Pos, nat>)
    ensures Pruned(view, s, tables, at, s, tables, at)
  {
  }

  lemma PrunedTwice(view: map<Loc, Leaf>, s: State, tables: set<nat>, at: map<Pos, nat>,
                    s1: State, tables1: set<nat>, at1: map<Pos, nat>,
                    s2: State, tables2: set<nat>, at2: map<Pos, nat>)
    requires Pruned(view, s, tables, at, s1, tables1, at1)
    requires Pruned(view, s1, tables1, at1, s2, tables2, at2)
    ensures Pruned(view, s, tables, at, s2, tables2, at2)
  {
  }

  /** Giving back one vacant table below a root. */
  lemma PrunedOne(s: State, tables: set<nat>, at: map<Pos, nat>, view: map<Loc, Leaf>, c: Pos)
    requires Valid(s) && FramesOk(s, tables, view) && c in at && c.level < 4 && at[c] in tables
    ensures at[c] < |s.frames| && Valid(Release(s, at[c])) && FramesOk(Release(s, at[c]), tables - {at[c]}, view)
    ensures Pruned(view, s, tables, at, Release(s, at[c]), tables - {at[c]}, at - {c})
  {
    ReleaseTableFrame(s, tables, view, at[c]);
    assert tables - (tables - {at[c]}) == {at[c]};
  }

  /** A vacant table leaves its parent as the only one that can be vacant. */
  lemma CutVacancy(tables: Tables, at: map<Pos, nat>, pos: map<nat, Pos>, c: Pos)
    requires Tree(tables, at, pos) && c in at && c.level < 4 && Vacant(tables[at[c]])
    requires NoVacantBut(tables, at, c)
    ensures Parent(c) in at && Tree(Cut(tables, at, c), at - {c}, pos - {at[c]})
    ensures NoVacantBut(Cut(tables, at, c), at - {c}, Parent(c))
  {
    RemoveTable(tables, at, pos, c);
    var tables' := Cut(tables, at, c);
    forall q | q in at - {c} && q.level < 4 && q != Parent(c) ensures !Vacant(tables'[at[q]]) {
      assert at[q] != at[c] && at[q] != at[Parent(c)];
      assert tables'[at[q]] == tables[at[q]];
    }
  }

  lemma CutTable(tables: Tables, at: map<Pos, nat>, pos: map<nat, Pos>, view: map<Loc, Leaf>, via: map<Pos, PFlags>,
                 c: Pos)
    requires Tree(tables, at, pos) && Denotes(tables, at, view) && Leads(tables, at, via)
    requires c in at && c.level < 4 && Vacant(tables[at[c]])
    ensures Parent(c) in at && at[Parent(c)] in tables - {at[c]} && |tables[at[Parent(c)]]| == 512
    ensures var tables', at', pos' := Cut(tables, at, c), at - {c}, pos - {at[c]};
      && Tree(tables', at', pos') && Denotes(tables', at', view) && Leads(tables', at', via - {c})
      && tables'.Keys == tables.Keys - {at[c]}
      && (NoVacantBut(tables, at, c) ==> NoVacantBut(tables', at', Parent(c)))
  {
    RemoveTable(tables, at, pos, c);
    AtTable(tables, at, pos, Parent(c));
    hide Tree, Denotes, Leads, Vacant;
    RemoveTableView(tables, at, pos, view, c);
    RemoveTableLeads(tables, at, pos, via, c);
    if NoVacantBut(tables, at, c) {
      CutVacancy(tables, at, pos, c);
    }
  }

  // ---- regions of a tree, for tearing it down

  function Up(x: nat, k: nat): nat {
    if k == 0 then x else Up(x / 512, k - 1)
  }

  lemma {:induction false} UpStep(x: nat, k: nat)
    ensures Up(x, k + 1) == Up(x, k) / 512
  {
    if k > 0 { UpStep(x / 512, k - 1); }
  }

  /** The part of the tree of `root` under the tables of `level` with prefixes from `lo` up to `hi`;
      level 0 stands for the pages themselves. */
  datatype Region = Region(root: nat, level: nat, lo: nat, hi: nat) {
    predicate Has(p: Pos) {
      p.root == root && p.level <= level && lo <= Up(p.prefix, level - p.level) < hi
    }

    predicate HasPage(l: Loc) {
      l.root == root && lo <= Up(l.page, level) < hi
    }
  }

  function Under(q: Pos): Region {
    Region(q.root, q.level, q.prefix, q.prefix + 1)
  }

  /** What the first `i` entries of the table at `q` lead to. */
  function FirstEntries(q: Pos, i: nat): Region
    requires q.level > 0
  {
    Region(q.root, q.level - 1, q.prefix * 512, q.prefix * 512 + i)
  }

  /** The 512 entries of a table lead to everything under it. */
  lemma AllEntries(q: Pos, p: Pos, l: Loc)
    requires q.level > 0
    ensures Under(q).HasPage(l) <==> FirstEntries(q, 512).HasPage(l)
    ensures p.level > 0 ==> (Under(q).Has(p) <==> p == q || FirstEntries(q, 512).Has(p))
  {
    UpStep(l.page, q.level - 1);
    if p.level < q.level { UpStep(p.prefix, q.level - 1 - p.level); }
  }

  /** One more entry leads to what is under that child. */
  lemma OneMoreEntry(q: Pos, i: nat, p: Pos, l: Loc)
    requires q.level > 0 && i < 512
    ensures FirstEntries(q, i + 1).HasPage(l) <==> FirstEntries(q, i).HasPage(l) || Under(Child(q, i)).HasPage(l)
    ensures FirstEntries(q, i + 1).Has(p) <==> FirstEntries(q, i).Has(p) || Under(Child(q, i)).Has(p)
    ensures !(FirstEntries(q, i).HasPage(l) && Under(Child(q, i)).HasPage(l))
    ensures !(FirstEntries(q, i).Has(p) && Under(Child(q, i)).Has(p))
  {
  }

  ghost function Outside(tables: Tables, pos: map<nat, Pos>, r: Region): Tables
    requires tables.Keys <= pos.Keys
  {
    map f | f in tables && !r.Has(pos[f]) :: tables[f]
  }

  ghost function ViewOutside(view: map<Loc, Leaf>, r: Region): map<Loc, Leaf> {
    map l | l in view && !r.HasPage(l) :: view[l]
  }

  /** In region `r` the tables `now` and the map `view` are still what the intact `tables` say. */
  ghost predicate Intact(tables: Tables, at: map<Pos, nat>, pos: map<nat, Pos>, now: Tables, view: map<Loc, Leaf>,
      r: Region) {
    && Tree(tables, at, pos) && now.Keys <= pos.Keys
    && (forall f :: f in now ==> f in tables && now[f] == tables[f])
    && (forall p :: p in at && r.Has(p) ==> at[p] in now)
    && (forall l :: l in view && r.HasPage(l) ==> LeafPos(l) in at)
    && (forall l: Loc :: r.HasPage(l) && LeafPos(l) in at ==> LeafEntry(tables, at, view, l))
  }

  /** Clearing a disjoint region leaves this one intact. */
  lemma StaysIntact(tables: Tables, at: map<Pos, nat>, pos: map<nat, Pos>, now: Tables, view: map<Loc, Leaf>,
                    r: Region, now': Tables, view': map<Loc, Leaf>, gone: Region)
    requires Intact(tables, at, pos, now, view, r)
    requires now' == Outside(now, pos, gone) && view' == ViewOutside(view, gone)
    requires forall p :: r.Has(p) ==> !gone.Has(p)
    requires forall l :: r.HasPage(l) ==> !gone.HasPage(l)
    ensures Intact(tables, at, pos, now', view', r)
  {
    forall l: Loc | r.HasPage(l) && LeafPos(l) in at ensures LeafEntry(tables, at, view', l) {
      assert LeafEntry(tables, at, view, l);
    }
  }

  /** A smaller region of an intact one is intact. */
  lemma PartIntact(tables: Tables, at: map<Pos, nat>, pos: map<nat, Pos>, now: Tables, view: map<Loc, Leaf>,
                   r: Region, part: Region)
    requires Intact(tables, at, pos, now, view, r)
    requires forall p: Pos :: p.level > 0 && part.Has(p) ==> r.Has(p)
    requires forall l :: part.HasPage(l) ==> r.HasPage(l)
    ensures Intact(tables, at, pos, now, view, part)
  {
    forall l: Loc | part.HasPage(l) && LeafPos(l) in at ensures LeafEntry(tables, at, view, l) {
      assert r.HasPage(l);
    }
  }

  lemma OutsideNone(tables: Tables, pos: map<nat, Pos>, view: map<Loc, Leaf>, q: Pos)
    requires tables.Keys <= pos.Keys && q.level > 0
    ensures Outside(tables, pos, FirstEntries(q, 0)) == tables
    ensures ViewOutside(view, FirstEntries(q, 0)) == view
  {
  }

  lemma OutsideStep(tables: Tables, pos: map<nat, Pos>, view: map<Loc, Leaf>, q: Pos, i: nat)
    requires tables.Keys <= pos.Keys && q.level > 0 && i < 512
    ensures Outside(tables, pos, FirstEntries(q, i + 1))
         == Outside(Outside(tables, pos, FirstEntries(q, i)), pos, Under(Child(q, i)))
    ensures ViewOutside(view, FirstEntries(q, i + 1))
         == ViewOutside(ViewOutside(view, FirstEntries(q, i)), Under(Child(q, i)))
  {
    forall p, l { OneMoreEntry(q, i, p, l); }
  }

  lemma OutsideAll(tables: Tables, at: map<Pos, nat>, pos: map<nat, Pos>, now: Tables, view: map<Loc, Leaf>, q: Pos)
    requires Intact(tables, at, pos, now, view, Under(q)) && q in at
    ensures Outside(now, pos, Under(q)) == Outside(now, pos, FirstEntries(q, 512)) - {at[q]}
    ensures ViewOutside(view, Under(q)) == ViewOutside(view, FirstEntries(q, 512))
  {
    forall p, l { AllEntries(q, p, l); }
    forall f | f in now ensures Under(q).Has(pos[f]) <==> f == at[q] || FirstEntries(q, 512).Has(pos[f]) {
      assert pos[f].level > 0;
      AllEntries(q, pos[f], Loc(0, 0));
    }
  }

  lemma LeafStep(tables: Tables, at: map<Pos, nat>, pos: map<nat, Pos>, now: Tables, view: map<Loc, Leaf>, q: Pos,
                 i: nat)
    requires Intact(tables, at, pos, now, view, Under(q)) && q in at && q.level == 1 && i < 512
    ensures at[q] in now && |now[at[q]]| == 512
    ensures Outside(now, pos, FirstEntries(q, i)) == now == Outside(now, pos, FirstEntries(q, i + 1))
    ensures var l := Loc(q.root, q.prefix * 512 + i); var left := ViewOutside(view, FirstEntries(q, i));
      && ViewOutside(view, FirstEntries(q, i + 1)) == left - {l}
      && match now[at[q]][i]
         case Absent => l !in left
         case Present(f, flags) => l in left && left[l] == Leaf(f, flags)
  {
    var l := Loc(q.root, q.prefix * 512 + i);
    assert LeafPos(l) == q && l.page % 512 == i;
    assert Under(q).HasPage(l) by { assert Up(l.page, 1) == Up(l.page / 512, 0); }
    assert LeafEntry(tables, at, view, l);
    assert Under(q).Has(q);
    assert now[at[q]] == tables[at[q]];
    forall f | f in now ensures pos[f].level > 0 { }
  }

  /** A table goes once everything its entries lead to has gone. */
  lemma LastOfRegion(tables: Tables, at: map<Pos, nat>, pos: map<nat, Pos>, now: Tables, view: map<Loc, Leaf>, q: Pos)
    requires Intact(tables, at, pos, now, view, Under(q)) && q in at && 1 <= q.level
    ensures at[q] in Outside(now, pos, FirstEntries(q, 512))
  {
    assert Under(q).Has(q);
  }

  /** Before entry `i` is dealt with, the subtree behind it is intact; if there is none,
      nothing is missing from it. */
  lemma ChildStep(tables: Tables, at: map<Pos, nat>, pos: map<nat, Pos>, now0: Tables, view0: map<Loc, Leaf>,
                  now: Tables, view: map<Loc, Leaf>, q: Pos, i: nat)
    requires Intact(tables, at, pos, now0, view0, Under(q)) && q in at && q.level > 1 && i < 512
    requires now == Outside(now0, pos, FirstEntries(q, i)) && view == ViewOutside(view0, FirstEntries(q, i))
    ensures at[q] in now && |now[at[q]]| == 512
    ensures match now[at[q]][i]
      case Absent => Outside(now, pos, Under(Child(q, i))) == now && ViewOutside(view, Under(Child(q, i))) == view
      case Present(f, _) => Child(q, i) in at && at[Child(q, i)] == f
                            && Intact(tables, at, pos, now, view, Under(Child(q, i)))
  {
    var c := Child(q, i);
    assert Entry(tables, at, q, i) && Under(q).Has(q);
    forall p | Under(c).Has(p) ensures !FirstEntries(q, i).Has(p) && (p.level > 0 ==> Under(q).Has(p)) {
      BehindEntry(q, i, p, Loc(0, 0));
    }
    forall l | Under(c).HasPage(l) ensures Under(q).HasPage(l) && !FirstEntries(q, i).HasPage(l) {
      BehindEntry(q, i, q, l);
    }
    assert now[at[q]] == now0[at[q]] == tables[at[q]];
    if now[at[q]][i].Present? {
      PartIntact(tables, at, pos, now0, view0, Under(q), Under(c));
      StaysIntact(tables, at, pos, now0, view0, Under(c), now, view, FirstEntries(q, i));
    } else {
      forall p | p in at ensures !Under(c).Has(p) {
        if Under(c).Has(p) { NothingUnder(tables, at, pos, c, p); }
      }
      forall l | l in view ensures !Under(c).HasPage(l) {
        assert Under(c).HasPage(l) ==> Under(c).Has(LeafPos(l));
      }
    }
  }

  /** What lies behind one entry is under the table and not behind an earlier entry. */
  lemma BehindEntry(q: Pos, i: nat, p: Pos, l: Loc)
    requires q.level > 0 && i < 512
    ensures Under(Child(q, i)).Has(p) ==> !FirstEntries(q, i).Has(p) && (p.level > 0 ==> Under(q).Has(p))
    ensures Under(Child(q, i)).HasPage(l) ==> !FirstEntries(q, i).HasPage(l) && Under(q).HasPage(l)
  {
    AllEntries(q, p, l);
    OneMoreEntry(q, i, p, l);
  }

  /** Under a position that has no table there are no tables. */
  lemma {:induction false} NothingUnder(tables: Tables, at: map<Pos, nat>, pos: map<nat, Pos>, c: Pos, p: Pos)
    requires Tree(tables, at, pos) && c.level < 4 && Under(c).Has(p) && p in at
    ensures c in at
    decreases c.level - p.level
  {
    if p.level == c.level {
      assert p == c;
    } else {
      assert Parent(p) in at;
      NothingUnder(tables, at, pos, c, Parent(p));
    }
  }

  // ---- a whole address space

  /** Nothing of the tree of `root` lies behind the upper 256 entries of its top table. */
  lemma UpperHalfEmpty(tables: Tables, at: map<Pos, nat>, pos: map<nat, Pos>, view: map<Loc, Leaf>, root: nat)
    requires Tree(tables, at, pos) && Denotes(tables, at, view)
    ensures var q := Pos(root, 4, 0);
      && Outside(tables, pos, FirstEntries(q, 512)) == Outside(tables, pos, FirstEntries(q, 256))
      && ViewOutside(view, FirstEntries(q, 512)) == ViewOutside(view, FirstEntries(q, 256))
  {
    forall p | p in at && p.level <= 3 ensures Up(p.prefix, 3 - p.level) < 256 {
      BelowLimit(p);
    }
    forall l | l in view ensures Up(l.page, 3) < 256 {
      assert LeafPos(l) in at && Up(l.page, 3) == Up(l.page / 512, 2);
      BelowLimit(LeafPos(l));
    }
    forall f | f in tables ensures pos[f] in at { }
  }

  lemma BelowLimit(p: Pos)
    requires 1 <= p.level <= 3 && p.prefix < Limit(p.level)
    ensures Up(p.prefix, 3 - p.level) < 256
  {
    if p.level == 2 { assert Up(p.prefix, 1) == Up(p.prefix / 512, 0); }
    if p.level == 1 {
      assert Up(p.prefix, 2) == Up(p.prefix / 512, 1) == Up(p.prefix / 512 / 512, 0);
    }
  }

  lemma WholeIntact(tables: Tables, at: map<Pos, nat>, pos: map<nat, Pos>, view: map<Loc, Leaf>, r: Region)
    requires Tree(tables, at, pos) && Denotes(tables, at, view)
    ensures Intact(tables, at, pos, tables, view, r)
  {
  }

  /** Everything that belongs to a root is under it. */
  lemma UnderRoot(tables: Tables, at: map<Pos, nat>, pos: map<nat, Pos>, view: map<Loc, Leaf>, root: nat)
    requires Tree(tables, at, pos) && Denotes(tables, at, view)
    ensures forall p :: p in at ==> (Under(Pos(root, 4, 0)).Has(p) <==> p.root == root)
    ensures forall l :: l in view ==> (Under(Pos(root, 4, 0)).HasPage(l) <==> l.root == root)
  {
    var q := Pos(root, 4, 0);
    forall p | p in at ensures Under(q).Has(p) <==> p.root == root {
      if p.level < 4 {
        BelowLimit(p);
        UpStep(p.prefix, 3 - p.level);
      }
    }
    forall l | l in view ensures Under(q).HasPage(l) <==> l.root == root {
      assert LeafPos(l) in at && Up(l.page, 4) == Up(l.page / 512, 3);
    }
  }

  ghost function OfOthers(at: map<Pos, nat>, root: nat): map<Pos, nat> {
    map p | p in at && p.root != root :: at[p]
  }

  /** The same roots. */
  ghost predicate SameRoots(at: map<Pos, nat>, at': map<Pos, nat>) {
    forall r :: Pos(r, 4, 0) in at' <==> Pos(r, 4, 0) in at
  }

  /** The tables of one root. */
  ghost function TablesOf(at: map<Pos, nat>, root: nat): set<Pos> {
    set q | q in at && q.root == root
  }

  /** Each position has a frame of its own. */
  lemma {:induction false} FramesOfPositions(at: map<Pos, nat>, frames: set<nat>)
    requires forall q, p :: q in at && p in at && at[q] == at[p] ==> q == p
    requires (forall q :: q in at ==> at[q] in frames) && forall f :: f in frames ==> exists q :: q in at && at[q] == f
    ensures |at| == |frames|
    decreases |at|
  {
    if q :| q in at {
      assert |at - {q}| == |at| - 1;
      forall f | f in frames - {at[q]} ensures exists p :: p in at - {q} && (at - {q})[p] == f {
        var p :| p in at && at[p] == f;
        assert p in at - {q};
      }
      FramesOfPositions(at - {q}, frames - {at[q]});
    } else {
      assert |at| == 0;
      assert frames == {};
    }
  }

  lemma TreeSize(tables: Tables, at: map<Pos, nat>, pos: map<nat, Pos>)
    requires Tree(tables, at, pos)
    ensures |at| == |tables.Keys|
  {
    forall f | f in tables.Keys ensures exists q :: q in at && at[q] == f { assert at[pos[f]] == f; }
    FramesOfPositions(at, tables.Keys);
  }

  /** Only tables of `root` have gone, and its top table has not. */
  ghost predicate Trimmed(at: map<Pos, nat>, via: map<Pos, PFlags>, at': map<Pos, nat>, via': map<Pos, PFlags>,
                          root: nat)
  {
    SameRoots(at, at') && OfOthers(at', root) == OfOthers(at, root) && ViaLess(via, via')
  }

  lemma TrimmedNone(at: map<Pos, nat>, via: map<Pos, PFlags>, root: nat)
    ensures Trimmed(at, via, at, via, root)
  {
  }

  lemma TrimmedTwice(at: map<Pos, nat>, via: map<Pos, PFlags>, at1: map<Pos, nat>, via1: map<Pos, PFlags>,
                     at2: map<Pos, nat>, via2: map<Pos, PFlags>, root: nat)
    requires Trimmed(at, via, at1, via1, root) && Trimmed(at1, via1, at2, via2, root)
    ensures Trimmed(at, via, at2, via2, root)
  {
  }

  lemma TrimmedBarred(at: map<Pos, nat>, via: map<Pos, PFlags>, at': map<Pos, nat>, via': map<Pos, PFlags>, root: nat)
    requires Trimmed(at, via, at', via', root)
    ensures BarredOf(via') <= BarredOf(via)
  {
  }

  lemma RootKept(at: map<Pos, nat>, via: map<Pos, PFlags>, at': map<Pos, nat>, via': map<Pos, PFlags>, root: nat)
    requires Trimmed(at, via, at', via', root)
    ensures Pos(root, 4, 0) in at' <==> Pos(root, 4, 0) in at
  {
  }

  /** The rest of a trimmed tree goes too. */
  lemma Felled(at: map<Pos, nat>, via: map<Pos, PFlags>, at1: map<Pos, nat>, via1: map<Pos, PFlags>, root: nat)
    requires Trimmed(at, via, at1, via1, root) && Pos(root, 4, 0) in at
    ensures OfOthers(at1, root) == OfOthers(at, root) && TablesOf(OfOthers(at, root), root) == {}
    ensures BarredOf(ViaOfOthers(via1, root)) <= BarredOf(via)
    ensures Pos(root, 4, 0) in TablesOf(at, root) && Pos(root, 4, 0) !in OfOthers(at, root)
    ensures |OfOthers(at, root)| + |TablesOf(at, root)| == |at|
    ensures forall r :: r != root ==> (Pos(r, 4, 0) in OfOthers(at, root) <==> Pos(r, 4, 0) in at)
  {
    OthersSize(at, root);
  }

  /** A new root has its top table and no other. */
  lemma BareRoot(at: map<Pos, nat>, root: nat)
    requires forall q :: q in at ==> q.root != root
    ensures var at' := at[Pos(root, 4, 0) := root];
      OfOthers(at', root) == at && TablesOf(at', root) == {Pos(root, 4, 0)} && |TablesOf(at', root)| == 1
  {
    assert TablesOf(at[Pos(root, 4, 0) := root], root) == {Pos(root, 4, 0)};
  }

  lemma OthersSize(at: map<Pos, nat>, root: nat)
    ensures |OfOthers(at, root)| + |TablesOf(at, root)| == |at|
  {
    var others := OfOthers(at, root).Keys;
    assert at.Keys == others + TablesOf(at, root) && others !! TablesOf(at, root);
    assert |at| == |at.Keys| && |OfOthers(at, root)| == |others|;
  }

  ghost function FramesOfOthers(pos: map<nat, Pos>, root: nat): map<nat, Pos> {
    map f | f in pos && pos[f].root != root :: pos[f]
  }

  ghost function ViewOfOthers(view: map<Loc, Leaf>, root: nat): map<Loc, Leaf> {
    map l | l in view && l.root != root :: view[l]
  }

  /** Uprooting one tree leaves the others standing. */
  lemma Uprooted(tables: Tables, at: map<Pos, nat>, pos: map<nat, Pos>, view: map<Loc, Leaf>, root: nat)
    requires Tree(tables, at, pos) && Denotes(tables, at, view)
    ensures var r := Under(Pos(root, 4, 0));
      && Tree(Outside(tables, pos, r), OfOthers(at, root), FramesOfOthers(pos, root))
      && Denotes(Outside(tables, pos, r), OfOthers(at, root), ViewOutside(view, r))
      && ViewOutside(view, r) == ViewOfOthers(view, root)
      && Outside(tables, pos, r).Keys == FramesOfOthers(pos, root).Keys
  {
    UnderRoot(tables, at, pos, view, root);
    var r := Under(Pos(root, 4, 0));
    var tables', at', pos' := Outside(tables, pos, r), OfOthers(at, root), FramesOfOthers(pos, root);
    forall f | f in tables ensures r.Has(pos[f]) <==> pos[f].root == root { assert pos[f] in at; }
    forall p, j | p in at' && p.level > 1 && 0 <= j < ENTRIES ensures Entry(tables', at', p, j) {
      assert Entry(tables, at, p, j);
      assert at[p] in tables';
    }
    forall l: Loc | LeafPos(l) in at' ensures LeafEntry(tables', at', ViewOutside(view, r), l) {
      assert LeafEntry(tables, at, view, l);
      assert at[LeafPos(l)] in tables';
    }
  }

  ghost function ViaOfOthers(via: map<Pos, PFlags>, root: nat): map<Pos, PFlags> {
    map q | q in via && q.root != root :: via[q]
  }

  lemma UprootedLeads(tables: Tables, at: map<Pos, nat>, pos: map<nat, Pos>, view: map<Loc, Leaf>,
                      via: map<Pos, PFlags>, root: nat)
    requires Tree(tables, at, pos) && Denotes(tables, at, view) && Leads(tables, at, via)
    ensures Leads(Outside(tables, pos, Under(Pos(root, 4, 0))), OfOthers(at, root), ViaOfOthers(via, root))
  {
    UnderRoot(tables, at, pos, view, root);
    var r := Under(Pos(root, 4, 0));
    var tables', at', via' := Outside(tables, pos, r), OfOthers(at, root), ViaOfOthers(via, root);
    forall p, j | p in at' && p.level > 1 && 0 <= j < ENTRIES ensures Led(tables', at', via', p, j) {
      assert Led(tables, at, via, p, j);
      assert at[p] in tables';
    }
  }

  lemma PlantedLeads(tables: Tables, at: map<Pos, nat>, pos: map<nat, Pos>, via: map<Pos, PFlags>, f: nat)
    requires Tree(tables, at, pos) && Leads(tables, at, via) && f !in tables
    ensures Leads(tables[f := EMPTY], at[Pos(f, 4, 0) := f], via)
  {
    var tables', at' := tables[f := EMPTY], at[Pos(f, 4, 0) := f];
    forall p, j | p in at' && p.level > 1 && 0 <= j < ENTRIES ensures Led(tables', at', via, p, j) {
      if p != Pos(f, 4, 0) { assert Led(tables, at, via, p, j); }
    }
  }

  /** A new top table. */
  lemma Planted(tables: Tables, at: map<Pos, nat>, pos: map<nat, Pos>, view: map<Loc, Leaf>, f: nat)
    requires Tree(tables, at, pos) && Denotes(tables, at, view) && f !in tables
    ensures forall p :: p in at ==> p.root != f
    ensures forall l :: l in view ==> l.root != f
    ensures var q := Pos(f, 4, 0);
      Tree(tables[f := EMPTY], at[q := f], pos[f := q]) && Denotes(tables[f := EMPTY], at[q := f], view)
  {
    forall p | p in at ensures p.root != f { RootPlanted(tables, at, pos, p); }
    var q := Pos(f, 4, 0);
    var tables', at' := tables[f := EMPTY], at[q := f];
    forall p, j | p in at' && p.level > 1 && 0 <= j < ENTRIES ensures Entry(tables', at', p, j) {
      if p != q { assert Entry(tables, at, p, j); }
    }
    forall l: Loc | LeafPos(l) in at' ensures LeafEntry(tables', at', view, l) {
      assert LeafEntry(tables, at, view, l);
    }
  }

  lemma PlantedVacancy(tables: Tables, at: map<Pos, nat>, pos: map<nat, Pos>, f: nat)
    requires Tree(tables, at, pos) && f !in tables && NoVacant(tables, at)
    requires Tree(tables[f := EMPTY], at[Pos(f, 4, 0) := f], pos[f := Pos(f, 4, 0)])
    ensures NoVacant(tables[f := EMPTY], at[Pos(f, 4, 0) := f])
  {
  }

  /** A table hangs below the top table of its root. */
  lemma {:induction false} RootPlanted(tables: Tables, at: map<Pos, nat>, pos: map<nat, Pos>, p: Pos)
    requires Tree(tables, at, pos) && p in at
    ensures Pos(p.root, 4, 0) in at && p.root in tables
    decreases 4 - p.level
  {
    if p.level < 4 {
      assert Parent(p) in at;
      RootPlanted(tables, at, pos, Parent(p));
    }
  }

  /** Positions of one root do not concern the others. */
  lemma OthersKept(at: map<Pos, nat>, p: Pos, f: nat)
    ensures OfOthers(at[p := f], p.root) == OfOthers(at, p.root) == OfOthers(at - {p}, p.root)
  {
  }

  /** The positions in use determine the frames in use. */
  lemma SameFrames(tables: Tables, pos: map<nat, Pos>, tables': Tables, pos': map<nat, Pos>, at: map<Pos, nat>)
    requires Tree(tables, at, pos) && Tree(tables', at, pos')
    ensures tables.Keys == tables'.Keys
  {
    forall f ensures f in tables <==> f in tables' {
      if f in tables { assert at[pos[f]] in pos'; }
      if f in tables' { assert at[pos'[f]] in pos; }
    }
  }

  datatype PtOp = DoMap(vaddr: nat, frame: nat, flags: PFlags) | DoUnmap(vaddr: nat)

  /** What an operation on `root` means for the partial map. */
  function Apply(view: map<Loc, Leaf>, root: nat, op: PtOp): map<Loc, Leaf> {
    match op
    case DoMap(v, f, flags) => view[Loc(root, v / 0x1000) := Leaf(f, flags)]
    case DoUnmap(v) => view - {Loc(root, v / 0x1000)}
  }

  function ApplyAll(view: map<Loc, Leaf>, root: nat, ops: seq<PtOp>): map<Loc, Leaf> {
    if ops == [] then view else Apply(ApplyAll(view, root, ops[..|ops|-1]), root, ops[|ops|-1])
  }

  lemma ApplyMore(view: map<Loc, Leaf>, root: nat, ops: seq<PtOp>, i: nat)
    requires i < |ops|
    ensures ApplyAll(view, root, ops[..i+1]) == Apply(ApplyAll(view, root, ops[..i]), root, ops[i])
  {
    assert ops[..i+1][..i] == ops[..i];
  }

  /** Operations on other roots leave a root's translations alone. */
  lemma ApplyKeepsOthers(view: map<Loc, Leaf>, root: nat, op: PtOp)
    ensures ViewOfOthers(Apply(view, root, op), root) == ViewOfOthers(view, root)
  {
  }

  /** The operations name user addresses and map only frames that someone else holds. */
  ghost predicate OpsOk(s: State, tables: set<nat>, view: map<Loc, Leaf>, ops: seq<PtOp>) {
    forall i :: 0 <= i < |ops| ==>
      && UserAddress(ops[i].vaddr)
      && (ops[i].DoMap? ==> Held(s, tables, view, ops[i].frame) && s.frames[ops[i].frame].kind.Allocated?)
  }

  lemma HeldIsMappable(s: State, tables: set<nat>, view: map<Loc, Leaf>,
                       s': State, tables': set<nat>, view': map<Loc, Leaf>, l: Loc, f: nat)
    requires SameExcess(s, tables, view, s', tables', view')
    requires Held(s, tables, view, f) && s.frames[f].kind.Allocated?
    ensures Mappable(s', tables', view', l, f)
  {
    assert Excess(s', tables', view', f) == Excess(s, tables, view, f);
    if l in view' && view'[l].frame == f {
      assert {l} <= Mappers(view', f);
      SubsetSize({l}, Mappers(view', f));
    }
  }

  lemma OpsStillOk(s: State, tables: set<nat>, view: map<Loc, Leaf>,
                   s': State, tables': set<nat>, view': map<Loc, Leaf>, ops: seq<PtOp>)
    requires SameExcess(s, tables, view, s', tables', view') && OpsOk(s, tables, view, ops)
    ensures OpsOk(s', tables', view', ops)
  {
  }

  // ---- whole runs on one address space

  /** Everything there is to know of the tables at one moment. */
  datatype Snapshot =
    Snapshot(frames: State, tables: Tables, at: map<Pos, nat>, pos: map<nat, Pos>, view: map<Loc, Leaf>)

  ghost predicate Sound(x: Snapshot) {
    && Valid(x.frames) && Tree(x.tables, x.at, x.pos) && Denotes(x.tables, x.at, x.view)
    && FramesOk(x.frames, x.tables.Keys, x.view)
  }

  /** The frames a map needs for tables. */
  ghost function Toll(x: Snapshot, root: nat, op: PtOp): (n: nat)
    ensures n <= 3 && (op.DoUnmap? ==> n == 0)
  {
    if op.DoMap? then Missing(x.at, root, op.vaddr) else 0
  }

  /** One operation of a run: it is done exactly when frames for its tables are free, and takes no more than those. */
  ghost predicate PtStep(x: Snapshot, root: nat, op: PtOp, done: bool, x': Snapshot)
    requires Sound(x) && Sound(x')
  {
    && (done <==> Toll(x, root, op) <= |x.frames.free|)
    && |x'.frames.free| >= |x.frames.free| - Toll(x, root, op)
    && x'.view == (if done then Apply(x.view, root, op) else x.view)
    && OfOthers(x'.at, root) == OfOthers(x.at, root)
    && SameExcess(x.frames, x.tables.Keys, x.view, x'.frames, x'.tables.Keys, x'.view)
    && (done && NoVacant(x.tables, x.at) ==> NoVacant(x'.tables, x'.at))
  }

  ghost predicate PtRun(trace: seq<Snapshot>, root: nat, ops: seq<PtOp>, done: seq<bool>) {
    && |trace| == |ops| + 1 && |done| == |ops|
    && (forall i :: 0 <= i < |trace| ==> Sound(trace[i]))
    && (forall i :: 0 <= i < |ops| ==> PtStep(trace[i], root, ops[i], done[i], trace[i+1]))
  }

  predicate All(done: seq<bool>) {
    forall i :: 0 <= i < |done| ==> done[i]
  }

  lemma AllMore(done: seq<bool>, made: bool)
    ensures All(done + [made]) <==> All(done) && made
  {
    assert (done + [made])[|done|] == made;
    assert forall i :: 0 <= i < |done| ==> (done + [made])[i] == done[i];
  }

  function Maps(ops: seq<PtOp>): nat {
    if ops == [] then 0 else (if ops[0].DoMap? then 1 else 0) + Maps(ops[1..])
  }

  /** With three free frames for each map at the start every operation is done. */
  lemma {:induction false} FundedRun(trace: seq<Snapshot>, root: nat, ops: seq<PtOp>, done: seq<bool>, i: nat)
    requires PtRun(trace, root, ops, done) && i <= |ops| && |trace[i].frames.free| >= 3 * Maps(ops[i..])
    ensures forall k :: i <= k < |ops| ==> done[k]
    decreases |ops| - i
  {
    if i < |ops| {
      hide Sound, SameExcess, NoVacant, OfOthers, Toll;
      assert PtStep(trace[i], root, ops[i], done[i], trace[i+1]);
      assert ops[i..][1..] == ops[i+1..];
      FundedRun(trace, root, ops, done, i + 1);
    }
  }

  /** While every operation is done the map is what the operations mean, and no table is left empty. */
  lemma {:induction false} RunDenotes(trace: seq<Snapshot>, root: nat, ops: seq<PtOp>, done: seq<bool>, n: nat)
    requires PtRun(trace, root, ops, done) && n <= |ops| && forall k :: 0 <= k < n ==> done[k]
    ensures trace[n].view == ApplyAll(trace[0].view, root, ops[..n])
    ensures var x, x' := trace[0], trace[n];
      Sound(x) && Sound(x') && (NoVacant(x.tables, x.at) ==> NoVacant(x'.tables, x'.at))
  {
    assert Sound(trace[0]) && Sound(trace[n]);
    if n > 0 {
      assert Sound(trace[n-1]);
      hide Sound, SameExcess, NoVacant, OfOthers, Toll;
      RunDenotes(trace, root, ops, done, n - 1);
      assert PtStep(trace[n-1], root, ops[n-1], done[n-1], trace[n-1+1]);
      ApplyMore(trace[0].view, root, ops, n - 1);
    }
  }

  /** Where all is done and the address space maps nothing any more, its root is the only table it has left. */
  lemma RunLeavesRootBare(trace: seq<Snapshot>, root: nat, ops: seq<PtOp>, done: seq<bool>)
    requires PtRun(trace, root, ops, done) && forall k :: 0 <= k < |ops| ==> done[k]
    requires Sound(trace[0]) && NoVacant(trace[0].tables, trace[0].at)
    requires forall l :: l in trace[|ops|].view ==> l.root != root
    ensures var x := trace[|ops|];
      x.pos.Keys == x.tables.Keys && forall f :: f in x.tables && x.pos[f].root == root ==> f == root
  {
    var x := trace[|ops|];
    RunDenotes(trace, root, ops, done, |ops|);
    UnmappedRootIsBare(x.tables, x.at, x.pos, x.view, root);
  }

  /** The mapping at `l` has the last reference to its frame. */
  ghost predicate LastRef(s: State, view: map<Loc, Leaf>, l: Loc) {
    l in view && view[l].frame < |s.frames| && s.frames[view[l].frame].refs <= 1
  }

  lemma NotLast(s: State, tables: set<nat>, view: map<Loc, Leaf>, l: Loc, f: nat)
    requires Mappable(s, tables, view, l, f) && (l in view ==> view[l].frame == f)
    ensures !LastRef(s, view, l)
  {
  }

  /** Mapping a frame in place of another frees the other exactly when nobody else holds it. */
  lemma RemappedSize(s: State, tables: set<nat>, view: map<Loc, Leaf>, l: Loc, f: nat)
    requires Valid(s) && FramesOk(s, tables, view) && Mappable(s, tables, view, l, f)
    ensures l in view ==> view[l].frame < |s.frames|
    ensures |Remapped(s, view, l, f).free| == |s.free| + if LastRef(s, view, l) then 1 else 0
  {
    if l in view {
      assert MappedOk(s, tables, view, view[l].frame);
      DropEffect(s, view[l].frame);
      AddEffect(Drop(s, view[l].frame), f);
    } else {
      AddEffect(s, f);
    }
  }

  /** The frames a walk takes for tables were free, and are as many tables more. */
  lemma GrownSize(s: State, tables: set<nat>, view: map<Loc, Leaf>, l: Loc, n: nat)
    requires Valid(s) && FramesOk(s, tables, view) && n <= |s.free|
    ensures |AllocN(s, n).free| + |tables + (set f | f in s.free[..n])| == |s.free| + |tables|
    ensures LastRef(AllocN(s, n), view, l) <==> LastRef(s, view, l)
  {
    var taken := s.free[..n];
    assert forall f :: f in taken ==> f in s.free;
    Seqs.DistinctSize(taken);
    assert (set f | f in taken) == Seqs.Members(taken) && tables !! Seqs.Members(taken);
    if l in view { assert MappedOk(s, tables, view, view[l].frame); }
  }

  lemma SubsetSize(a: set<Loc>, b: set<Loc>)
    requires a <= b
    ensures |a| <= |b|
  {
    assert b == a + (b - a);
  }

  /** Unchanged tables and translations mean unchanged reference counts. */
  lemma SameRefs(s: State, tables: set<nat>, view: map<Loc, Leaf>, s': State)
    requires SameExcess(s, tables, view, s', tables, view)
    ensures forall f :: 0 <= f < |s.frames| ==> s'.frames[f].refs == s.frames[f].refs
  {
    forall f | 0 <= f < |s.frames| ensures s'.frames[f].refs == s.frames[f].refs {
      assert Excess(s', tables, view, f) == Excess(s, tables, view, f);
    }
  }

  /** Some page of the region maps frame `f`. */
  ghost predicate MappedIn(view: map<Loc, Leaf>, r: Region, f: nat) {
    exists l :: l in view && r.HasPage(l) && view[l].frame == f
  }

  /** A frame that is no table and is not mapped in the region is as it was. */
  ghost predicate Spared(s: State, tables: set<nat>, view: map<Loc, Leaf>, r: Region, s': State) {
    && |s'.frames| == |s.frames|
    && forall f :: 0 <= f < |s.frames| && f !in tables && !MappedIn(view, r, f) ==> s'.frames[f] == s.frames[f]
  }

  /** Frames that have been given back. */
  ghost predicate Gone(s: State, gone: set<nat>) {
    forall f :: f in gone ==> f < |s.frames| && s.frames[f] == RETURNED
  }

  lemma GoneNone(s: State, tables: set<nat>)
    ensures Gone(s, tables - tables)
  {
  }

  lemma GoneMore(s: State, gone: set<nat>, f: nat, s': State)
    requires Gone(s, gone) && f < |s.frames| && s'.frames == s.frames[f := RETURNED]
    ensures Gone(s', gone + {f})
  {
  }

  lemma GoneBoth(s: State, a: set<nat>, b: set<nat>)
    requires Gone(s, a) && Gone(s, b)
    ensures Gone(s, a + b)
  {
  }

  /** What has been given back stays free while a region is torn down. */
  lemma GoneStays(s1: State, tables1: set<nat>, view1: map<Loc, Leaf>, r: Region, s2: State, gone: set<nat>)
    requires FramesOk(s1, tables1, view1) && Spared(s1, tables1, view1, r, s2) && Gone(s1, gone)
    ensures Gone(s2, gone)
  {
    forall f | f in gone ensures s2.frames[f] == RETURNED {
      assert f !in tables1;
      forall l | l in view1 ensures view1[l].frame != f { assert MappedOk(s1, tables1, view1, view1[l].frame); }
    }
  }

  /** Tearing down what maps nothing any more makes room for exactly as many frames as there were tables. */
  lemma TornDownRoom(s: State, tables: set<nat>, view: map<Loc, Leaf>, r: Region, s': State, tables': set<nat>)
    requires Valid(s) && FramesOk(s, tables, view) && Valid(s') && FramesOk(s', tables', view) && tables' <= tables
    requires Spared(s, tables, view, r, s') && Gone(s', tables - tables')
    requires forall l :: l in view ==> !r.HasPage(l)
    ensures |s'.free| + |tables'| == |s.free| + |tables|
  {
    forall f: nat
      ensures f in s'.free <==> f in s.free || f in tables - tables'
      ensures !(f in s.free && f in tables - tables')
    {
      if f < |s.frames| {
        assert !MappedIn(view, r, f);
        assert f in s.free ==> f !in tables;
      }
    }
    Seqs.PartSizes(s'.free, s.free, tables - tables');
    assert tables == tables' + (tables - tables');
  }

  lemma SparedNone(s: State, tables: set<nat>, view: map<Loc, Leaf>, r: Region)
    ensures Spared(s, tables, view, r, s)
  {
  }

  lemma SparedMore(s: State, tables: set<nat>, view: map<Loc, Leaf>, q: Pos, i: nat, j: nat, s1: State)
    requires q.level > 0 && i <= j && Spared(s, tables, view, FirstEntries(q, i), s1)
    ensures Spared(s, tables, view, FirstEntries(q, j), s1)
  {
    forall f | MappedIn(view, FirstEntries(q, i), f) ensures MappedIn(view, FirstEntries(q, j), f) {
      var k :| k in view && FirstEntries(q, i).HasPage(k) && view[k].frame == f;
      assert FirstEntries(q, j).HasPage(k);
    }
  }

  lemma SparedLeaf(s: State, tables: set<nat>, view: map<Loc, Leaf>, q: Pos, i: nat, s1: State)
    requires q.level == 1 && i < 512 && Spared(s, tables, view, FirstEntries(q, i), s1) && Valid(s1)
    ensures Spared(s, tables, view, FirstEntries(q, i + 1), s1)
    ensures var l := Loc(q.root, q.prefix * 512 + i);
      l in view && view[l].frame < |s1.frames| && s1.frames[view[l].frame].kind.Allocated? ==>
        Spared(s, tables, view, FirstEntries(q, i + 1), Drop(s1, view[l].frame))
  {
    var l := Loc(q.root, q.prefix * 512 + i);
    assert FirstEntries(q, i + 1).HasPage(l);
    SparedMore(s, tables, view, q, i, i + 1, s1);
    if l in view && view[l].frame < |s1.frames| && s1.frames[view[l].frame].kind.Allocated? {
      DropEffect(s1, view[l].frame);
      assert MappedIn(view, FirstEntries(q, i + 1), view[l].frame);
    }
  }

  lemma SparedChild(s: State, tables: set<nat>, view: map<Loc, Leaf>, q: Pos, i: nat,
                    s1: State, tables1: set<nat>, s2: State)
    requires q.level > 1 && i < 512 && Spared(s, tables, view, FirstEntries(q, i), s1) && tables1 <= tables
    requires Spared(s1, tables1, ViewOutside(view, FirstEntries(q, i)), Under(Child(q, i)), s2)
    ensures Spared(s, tables, view, FirstEntries(q, i + 1), s2)
  {
    var left := ViewOutside(view, FirstEntries(q, i));
    forall f | !MappedIn(view, FirstEntries(q, i + 1), f)
      ensures !MappedIn(view, FirstEntries(q, i), f) && !MappedIn(left, Under(Child(q, i)), f)
    {
      forall l | l in view && (FirstEntries(q, i).HasPage(l) || Under(Child(q, i)).HasPage(l))
        ensures view[l].frame != f
      {
        OneMoreEntry(q, i, q, l);
        assert FirstEntries(q, i + 1).HasPage(l);
      }
    }
  }

  lemma SparedAll(s: State, tables: set<nat>, view: map<Loc, Leaf>, q: Pos, s1: State, f: nat)
    requires q.level > 0 && Spared(s, tables, view, FirstEntries(q, 512), s1) && f in tables && f < |s1.frames|
    ensures Spared(s, tables, view, Under(q), s1)
    ensures forall s2: State :: |s2.frames| == |s1.frames| && s2.frames == s1.frames[f := RETURNED] ==>
      Spared(s, tables, view, Under(q), s2)
  {
    forall g | MappedIn(view, FirstEntries(q, 512), g) ensures MappedIn(view, Under(q), g) {
      var k :| k in view && FirstEntries(q, 512).HasPage(k) && view[k].frame == g;
      AllEntries(q, q, k);
      assert Under(q).HasPage(k);
    }
  }
}
