/** The frame allocator seen from outside: one record per physical frame and the free
    frames in the order in which they will be handed out. The linked representation in
    `FrameAllocator` refines these functions; page tables and address spaces build on them. */
module FrameStates {
  import opened Seqs

  datatype Kind = Free | Allocated | Reserved

  datatype Frame = Frame(kind: Kind, shared: bool, cow: bool, refs: nat, shares: nat)

  datatype State = State(frames: seq<Frame>, free: seq<nat>)

  /** What pmm_alloc_page makes of a frame. */
  const FRESH := Frame(Allocated, false, false, 1, 1)

  const RETURNED := Frame(Free, false, false, 0, 0)

  ghost predicate FrameOk(f: Frame) {
    match f.kind
    case Free => f == RETURNED
    case Allocated => f.refs >= 1 && f.shares >= 1 && (f.shared <==> f.shares > 1)
    case Reserved => true
  }

  /** Frame 0 is always reserved, so a physical address of 0 can stand for "no frame". */
  ghost predicate Valid(s: State) {
    && 0 < |s.frames| && s.frames[0].kind.Reserved?
    && (forall i :: 0 <= i < |s.frames| ==> FrameOk(s.frames[i]))
    && NoDuplicates(s.free)
    && (forall i :: i in s.free ==> i < |s.frames|)
    && (forall i :: 0 <= i < |s.frames| ==> (s.frames[i].kind.Free? <==> i in s.free))
  }

  // ---- operations

  function Take(s: State, i: nat): State
    requires i < |s.frames|
  {
    State(s.frames[i := FRESH], Without(s.free, i))
  }

  function Alloc(s: State): State
    requires s.free != [] && s.free[0] < |s.frames|
  {
    Take(s, s.free[0])
  }

  function Retain(s: State, i: nat): (r: State)
    requires i < |s.frames|
    ensures |r.frames| == |s.frames|
  {
    var f := s.frames[i];
    var shares := if f.refs == 0 then 1 else f.shares;
    if f.kind.Free? then
      State(s.frames[i := f.(kind := Allocated, refs := f.refs + 1, shares := shares)], Without(s.free, i))
    else
      s.(frames := s.frames[i := f.(refs := f.refs + 1, shares := shares)])
  }

  function Release(s: State, i: nat): (r: State)
    requires i < |s.frames|
    ensures |r.frames| == |s.frames|
  {
    var f := s.frames[i];
    if f.refs == 0 then s
    else if f.refs > 1 || f.kind.Reserved? then s.(frames := s.frames[i := f.(refs := f.refs - 1)])
    else State(s.frames[i := RETURNED], [i] + s.free)
  }

  function Share(s: State, i: nat): (r: State)
    requires i < |s.frames|
    ensures |r.frames| == |s.frames|
  {
    var f := s.frames[i];
    var shares := if !f.shared && f.shares == 0 then 1 else f.shares;
    s.(frames := s.frames[i := f.(shared := true, shares := shares + 1)])
  }

  function Unshare(s: State, i: nat): (r: State)
    requires i < |s.frames|
    ensures |r.frames| == |s.frames|
  {
    var f := s.frames[i];
    if !f.shared then s else
    var shares := if f.shares > 0 then f.shares - 1 else 0;
    s.(frames := s.frames[i := f.(shared := shares > 1, shares := shares)])
  }

  function SetCow(s: State, i: nat, cow: bool): State
    requires i < |s.frames|
  {
    s.(frames := s.frames[i := s.frames[i].(cow := cow)])
  }

  /** The `n` frames from `i` on taken one by one, as pmm_alloc_pages does. */
  function TakeRun(s: State, i: nat, n: nat): (r: State)
    requires i + n <= |s.frames|
    ensures |r.frames| == |s.frames|
  {
    if n == 0 then s else Take(TakeRun(s, i, n - 1), i + n - 1)
  }

  predicate FreeRun(s: State, i: nat, n: nat) {
    i + n <= |s.frames| && forall j :: i <= j < i + n ==> s.frames[j].kind.Free?
  }

  // ---- every operation keeps the state valid

  lemma TakeValid(s: State, i: nat)
    requires Valid(s) && i in s.free
    ensures Valid(Take(s, i)) && |Take(s, i).free| == |s.free| - 1
  {
    WithoutMembers(s.free, i);
  }

  lemma RetainValid(s: State, i: nat)
    requires Valid(s) && i < |s.frames|
    ensures Valid(Retain(s, i))
  {
    if s.frames[i].kind.Free? { WithoutMembers(s.free, i); }
  }

  lemma ReleaseValid(s: State, i: nat)
    requires Valid(s) && i < |s.frames|
    ensures Valid(Release(s, i))
  {
    var r := Release(s, i);
    forall j | 0 <= j < |r.frames| ensures r.frames[j].kind.Free? <==> j in r.free {
      if j != i { assert j in r.free <==> j in s.free; }
    }
  }

  lemma ShareValid(s: State, i: nat)
    requires Valid(s) && i < |s.frames| && s.frames[i].kind.Allocated?
    ensures Valid(Share(s, i)) && Valid(Unshare(s, i))
    ensures Valid(SetCow(s, i, true)) && Valid(SetCow(s, i, false))
  {
  }

  /** After taking a run, exactly the frames of the run have left the free list. */
  lemma {:induction false} TakeRunEffect(s: State, i: nat, n: nat)
    requires Valid(s) && FreeRun(s, i, n)
    ensures Valid(TakeRun(s, i, n))
    ensures |TakeRun(s, i, n).free| == |s.free| - n
    ensures forall j :: 0 <= j < |s.frames| ==>
      TakeRun(s, i, n).frames[j] == if i <= j < i + n then FRESH else s.frames[j]
  {
    if n > 0 {
      TakeRunEffect(s, i, n - 1);
      TakeValid(TakeRun(s, i, n - 1), i + n - 1);
    }
  }

  // ---- what page tables do with frames

  /** The first `n` free frames allocated. */
  function AllocN(s: State, n: nat): (r: State)
    requires n <= |s.free|
    ensures |r.frames| == |s.frames| && |r.free| == |s.free| - n
  {
    State(seq(|s.frames|, j requires 0 <= j < |s.frames| => if j in s.free[..n] then FRESH else s.frames[j]),
          s.free[n..])
  }

  lemma AllocNStep(s: State, n: nat)
    requires Valid(s) && n < |s.free|
    ensures AllocN(s, n).free[0] == s.free[n] < |s.frames|
    ensures Alloc(AllocN(s, n)) == AllocN(s, n + 1)
  {
    assert s.free[..n+1] == s.free[..n] + [s.free[n]];
    assert s.free[n..][1..] == s.free[n+1..];
    assert s.free[n] in s.free;
    assert Alloc(AllocN(s, n)).frames == AllocN(s, n + 1).frames;
  }

  /** What a new mapping of frame `i` costs, and what dropping one gives back. */
  function Add(s: State, i: nat): (r: State)
    requires i < |s.frames|
    ensures |r.frames| == |s.frames|
  {
    Retain(Share(s, i), i)
  }

  function Drop(s: State, i: nat): (r: State)
    requires i < |s.frames|
    ensures |r.frames| == |s.frames|
  {
    Release(Unshare(s, i), i)
  }

  lemma AllocNSame(s: State, n: nat, g: nat)
    requires Valid(s) && n <= |s.free| && g < |s.frames| && !s.frames[g].kind.Free?
    ensures AllocN(s, n).frames[g] == s.frames[g]
  {
    assert g !in s.free;
  }

  lemma AddEffect(s: State, i: nat)
    requires Valid(s) && i < |s.frames| && s.frames[i].kind.Allocated?
    ensures Valid(Add(s, i))
    ensures var f := s.frames[i];
      Add(s, i) == State(s.frames[i := f.(shared := true, refs := f.refs + 1, shares := f.shares + 1)], s.free)
  {
  }

  lemma DropEffect(s: State, i: nat)
    requires Valid(s) && i < |s.frames| && s.frames[i].kind.Allocated?
    ensures Valid(Drop(s, i))
    ensures var f := s.frames[i]; var shares := if f.shared then f.shares - 1 else f.shares;
      Drop(s, i) == if f.refs > 1
        then State(s.frames[i := f.(shared := shares > 1, refs := f.refs - 1, shares := shares)], s.free)
        else State(s.frames[i := RETURNED], [i] + s.free)
  {
    ReleaseValid(Unshare(s, i), i);
    assert s.frames[i := s.frames[i]] == s.frames;
  }

  lemma FreeHead(s: State)
    requires Valid(s) && s.free != []
    ensures s.free[0] < |s.frames|
  {
    assert s.free[0] in s.free;
  }

  /** Frames that become free, while none that was free is taken, are room gained. */
  lemma RoomGained(s: State, s': State, more: set<nat>)
    requires Valid(s) && Valid(s') && |s'.frames| == |s.frames|
    requires forall f :: 0 <= f < |s.frames| && s.frames[f].kind.Free? ==> s'.frames[f].kind.Free?
    requires forall f :: f in more ==> f < |s.frames| && !s.frames[f].kind.Free? && s'.frames[f].kind.Free?
    ensures |s'.free| >= |s.free| + |more|
  {
    var was, now := Members(s.free), Members(s'.free);
    DistinctSize(s.free);
    DistinctSize(s'.free);
    assert was !! more && was + more <= now;
    SetSize(was + more, now);
    assert |was + more| == |was| + |more|;
  }

  /** When none but the frames of a run are taken, no more room is lost. */
  lemma RoomTaken(s: State, s': State, p: nat, n: nat)
    requires Valid(s) && Valid(s') && |s'.frames| == |s.frames|
    requires forall x :: 0 <= x < |s.frames| && s.frames[x].kind.Free? && x !in Span(p, n) ==> s'.frames[x].kind.Free?
    ensures |s'.free| >= |s.free| - n
  {
    var was, now := Members(s.free), Members(s'.free);
    DistinctSize(s.free);
    DistinctSize(s'.free);
    assert was <= now + Span(p, n);
    SetSize(was, now + Span(p, n));
    assert |now + Span(p, n)| <= |now| + |Span(p, n)|;
  }

  // ---- whole runs

  datatype Op =
    | AllocOne
    | AllocMany(count: nat)
    | RetainOp(frame: nat)
    | ReleaseOp(frame: nat)
    | ShareOp(frame: nat)
    | UnshareOp(frame: nat)
    | CowOp(frame: nat, on: bool)

  /** The start of the lowest run of `n` free frames, looking at starts from `from` on. */
  function LowestRun(s: State, n: nat, from: nat): (r: int)
    ensures r == -1 || (from <= r && FreeRun(s, r, n))
    ensures forall j: nat :: from <= j && (j < r || r == -1) ==> !FreeRun(s, j, n)
    decreases |s.frames| - from
  {
    if from + n > |s.frames| then -1
    else if FreeRun(s, from, n) then from
    else if from == |s.frames| then -1
    else LowestRun(s, n, from + 1)
  }

  /** Where pmm_alloc_pages finds its run: the head of the free list for one frame, the lowest run for more. */
  function RunStart(s: State, n: nat): int {
    if n == 0 then -1 else if n == 1 then if s.free == [] then -1 else s.free[0] else LowestRun(s, n, 0)
  }

  /** Sharing a frame that is not allocated would read a link as a count: the callers never do. */
  predicate Enabled(s: State, op: Op) {
    match op
    case AllocOne | AllocMany(_) => true
    case RetainOp(i) => i < |s.frames|
    case ReleaseOp(i) => i < |s.frames|
    case ShareOp(i) => i < |s.frames| && s.frames[i].kind.Allocated?
    case UnshareOp(i) => i < |s.frames| && s.frames[i].kind.Allocated?
    case CowOp(i, _) => i < |s.frames| && s.frames[i].kind.Allocated?
  }

  function Step(s: State, op: Op): State
    requires Enabled(s, op)
  {
    match op
    case AllocOne => if s.free != [] && s.free[0] < |s.frames| then Alloc(s) else s
    case AllocMany(n) =>
      if n == 0 then s
      else if n == 1 then if s.free != [] && s.free[0] < |s.frames| then Alloc(s) else s
      else var i := LowestRun(s, n, 0); if i < 0 then s else TakeRun(s, i, n)
    case RetainOp(i) => Retain(s, i)
    case ReleaseOp(i) => Release(s, i)
    case ShareOp(i) => Share(s, i)
    case UnshareOp(i) => Unshare(s, i)
    case CowOp(i, on) => SetCow(s, i, on)
  }

  /** How many references to frame `f` step `op` hands out, less those it takes back. */
  function Delta(s: State, op: Op, f: nat): int
    requires Enabled(s, op)
  {
    match op
    case AllocOne => if s.free != [] && s.free[0] == f then 1 else 0
    case AllocMany(n) =>
      if n == 0 then 0
      else if n == 1 then if s.free != [] && s.free[0] == f then 1 else 0
      else var i := LowestRun(s, n, 0); if 0 <= i <= f < i + n then 1 else 0
    case RetainOp(i) => if i == f then 1 else 0
    case ReleaseOp(i) => if i == f && s.frames[f].refs > 0 then -1 else 0
    case _ => 0
  }

  /** An allocated run was free, does not start at frame 0, and nothing else changes. */
  lemma RunTaken(s: State, n: nat)
    requires Valid(s) && RunStart(s, n) >= 0
    ensures RunStart(s, n) > 0 && FreeRun(s, RunStart(s, n), n) && |Step(s, AllocMany(n)).frames| == |s.frames|
    ensures forall x :: 0 <= x < |s.frames| ==>
      Step(s, AllocMany(n)).frames[x] == if RunStart(s, n) <= x < RunStart(s, n) + n then FRESH else s.frames[x]
  {
    var i := RunStart(s, n);
    if n == 1 {
      assert s.free[0] in s.free;
    } else {
      TakeRunEffect(s, i, n);
    }
    assert s.frames[i].kind.Free?;
  }

  lemma StepKeepsValid(s: State, op: Op)
    requires Valid(s) && Enabled(s, op)
    ensures Valid(Step(s, op)) && |Step(s, op).frames| == |s.frames|
    ensures forall f :: 0 <= f < |s.frames| ==>
      Step(s, op).frames[f].refs == s.frames[f].refs + Delta(s, op, f)
  {
    match op
    case AllocOne => if s.free != [] { TakeValid(s, s.free[0]); }
    case AllocMany(n) =>
      if n == 1 { if s.free != [] { TakeValid(s, s.free[0]); } }
      else if n > 1 {
        var i := LowestRun(s, n, 0);
        if i >= 0 { TakeRunEffect(s, i, n); }
      }
    case RetainOp(i) => RetainValid(s, i);
    case ReleaseOp(i) => ReleaseValid(s, i);
    case ShareOp(i) =>
    case UnshareOp(i) =>
    case CowOp(i, on) =>
  }

  /** At most frame `i` has changed. */
  ghost predicate OnlyFrame(s: State, s': State, i: nat) {
    |s'.frames| == |s.frames| && forall j :: 0 <= j < |s.frames| && j != i ==> s'.frames[j] == s.frames[j]
  }

  /** Frames `i` up to `i + n` have been handed out, and no other frame has changed or left the list. */
  ghost predicate HandedOut(s: State, s': State, i: nat, n: nat) {
    && FreeRun(s, i, n) && |s'.frames| == |s.frames|
    && (forall j :: 0 <= j < |s.frames| ==>
      s'.frames[j] == if i <= j < i + n then Frame(Allocated, false, false, 1, 1) else s.frames[j])
    && forall j :: j in s'.free <==> j in s.free && !(i <= j < i + n)
  }

  /** A single frame comes from the head of the list, a longer run is the lowest there is. */
  ghost predicate InTurn(s: State, s': State, i: nat, n: nat) {
    if n == 1 then s.free == [i] + s'.free else forall k: nat :: k < i ==> !FreeRun(s, k, n)
  }

  /** What pmm.c promises of every operation. */
  ghost predicate Promised(s: State, op: Op, s': State)
    requires Enabled(s, op)
  {
    match op
    case AllocOne =>
      if s.free == [] then s' == s else HandedOut(s, s', s.free[0], 1) && s.free == [s.free[0]] + s'.free
    case AllocMany(n) =>
      if n == 0 || forall i: nat :: !FreeRun(s, i, n) then s' == s
      else exists i: nat :: HandedOut(s, s', i, n) && InTurn(s, s', i, n)
    case RetainOp(i) =>
      var f, f' := s.frames[i], if i < |s'.frames| then s'.frames[i] else FRESH;
      && OnlyFrame(s, s', i) && f'.refs == f.refs + 1 && f'.shared == f.shared && f'.cow == f.cow
      && f'.kind == (if f.kind.Free? then Allocated else f.kind) && f'.shares == (if f.refs == 0 then 1 else f.shares)
      && (forall j :: j in s'.free <==> j in s.free && (j != i || !f.kind.Free?))
    case ReleaseOp(i) =>
      var f := s.frames[i];
      if f.refs == 0 then s' == s
      else if f.refs == 1 && !f.kind.Reserved? then
        OnlyFrame(s, s', i) && s'.frames[i].kind.Free? && s'.frames[i].refs == 0 && s'.free == [i] + s.free
      else OnlyFrame(s, s', i) && s'.frames[i] == f.(refs := f.refs - 1) && s'.free == s.free
    case ShareOp(i) =>
      OnlyFrame(s, s', i) && s'.free == s.free
      && s'.frames[i] == s.frames[i].(shared := true, shares := s.frames[i].shares + 1)
    case UnshareOp(i) =>
      var n := s.frames[i].shares;
      if n <= 1 then s' == s
      else OnlyFrame(s, s', i) && s'.free == s.free && s'.frames[i] == s.frames[i].(shared := n > 2, shares := n - 1)
    case CowOp(i, on) =>
      OnlyFrame(s, s', i) && s'.free == s.free && s'.frames[i] == s.frames[i].(cow := on)
  }

  /** Every operation keeps its promise. */
  lemma StepPromised(s: State, op: Op)
    requires Valid(s) && Enabled(s, op)
    ensures Promised(s, op, Step(s, op))
  {
    match op
    case AllocOne => if s.free != [] { HeadTaken(s); }
    case AllocMany(n) => if n > 0 { ManyTaken(s, n); }
    case RetainOp(i) => if s.frames[i].kind.Free? { WithoutMembers(s.free, i); }
    case _ =>
  }

  lemma HeadTaken(s: State)
    requires Valid(s) && s.free != []
    ensures s.free[0] < |s.frames| && HandedOut(s, Alloc(s), s.free[0], 1) && s.free == [s.free[0]] + Alloc(s).free
  {
    FreeHead(s);
    assert s.free[0] in s.free;
    WithoutMembers(s.free, s.free[0]);
  }

  lemma {:induction false} RunLeft(s: State, i: nat, n: nat)
    requires Valid(s) && FreeRun(s, i, n)
    ensures forall j :: j in TakeRun(s, i, n).free <==> j in s.free && !(i <= j < i + n)
  {
    if n > 0 {
      RunLeft(s, i, n - 1);
      TakeRunEffect(s, i, n - 1);
      WithoutMembers(TakeRun(s, i, n - 1).free, i + n - 1);
    }
  }

  lemma ManyTaken(s: State, n: nat)
    requires Valid(s) && n > 0
    ensures Promised(s, AllocMany(n), Step(s, AllocMany(n)))
  {
    if n == 1 {
      if s.free == [] {
        forall i: nat ensures !FreeRun(s, i, 1) { if i < |s.frames| { assert !s.frames[i].kind.Free?; } }
      } else {
        HeadTaken(s);
        assert FreeRun(s, s.free[0], 1);
      }
    } else {
      var i := LowestRun(s, n, 0);
      if i >= 0 {
        TakeRunEffect(s, i, n);
        RunLeft(s, i, n);
        assert HandedOut(s, Step(s, AllocMany(n)), i, n);
      }
    }
  }

  ghost predicate RunEnabled(s: State, ops: seq<Op>)
    decreases |ops|
  {
    ops == [] || (Enabled(s, ops[0]) && RunEnabled(Step(s, ops[0]), ops[1..]))
  }

  ghost function Run(s: State, ops: seq<Op>): State
    requires RunEnabled(s, ops)
    decreases |ops|
  {
    if ops == [] then s else Run(Step(s, ops[0]), ops[1..])
  }

  /** References to `f` handed out less those taken back, over a whole run. */
  ghost function Outstanding(s: State, ops: seq<Op>, f: nat): int
    requires RunEnabled(s, ops)
    decreases |ops|
  {
    if ops == [] then 0 else Delta(s, ops[0], f) + Outstanding(Step(s, ops[0]), ops[1..], f)
  }

  /** In every run: the free list holds exactly the free frames once each, an allocated frame
      is marked shared exactly when its share count exceeds one, and the reference count of a
      frame is the number of references outstanding. */
  lemma {:induction false} EveryRun(s: State, ops: seq<Op>)
    requires Valid(s) && RunEnabled(s, ops)
    ensures Valid(Run(s, ops)) && |Run(s, ops).frames| == |s.frames|
    ensures forall f :: 0 <= f < |s.frames| ==>
      Run(s, ops).frames[f].refs == s.frames[f].refs + Outstanding(s, ops, f)
    decreases |ops|
  {
    if ops != [] {
      StepKeepsValid(s, ops[0]);
      EveryRun(Step(s, ops[0]), ops[1..]);
    }
  }
}
