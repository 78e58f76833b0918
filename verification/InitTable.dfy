/** The process table of init.c: its slots, and the loops that search and change it. */
module InitTable {
  const NPROC: nat := 100
  const SPAWN_INTERVAL: int := 120
  const SPAWN_LIMIT: nat := 10
  const INHIBIT: int := 300

  /** p_flags */
  datatype Flags = Flags(
    occupied: bool, living: bool, nocleanup: bool, named: bool, demand: bool, touched: bool, warned: bool, killed: bool)

  const NOFLAGS: Flags := Flags(false, false, false, false, false, false, false, false)

  /** struct PROC_TABLE */
  datatype Slot = Slot(id: string, pid: int, count: nat, time: int, exit: int, flags: Flags)

  type Table = t: seq<Slot> | |t| == NPROC witness seq(NPROC, _ => EMPTY)

  const EMPTY: Slot := Slot("", 0, 0, 0, 0, NOFLAGS)

  function Cleared(s: Slot): Slot {
    s.(flags := NOFLAGS)
  }

  function WithFlags(s: Slot, f: Flags): Slot {
    s.(flags := f)
  }

  predicate Holds(s: Slot, id: string) {
    s.flags.occupied && s.id == id
  }

  /** No two occupied slots carry the same id, except for the empty one of processes that are not from inittab. */
  ghost predicate UniqueIds(t: seq<Slot>) {
    forall i, j :: 0 <= i < j < |t| && t[i].flags.occupied && t[j].flags.occupied && t[i].id != "" ==>
      t[i].id != t[j].id
  }

  /** No two occupied slots carry the same process id. */
  ghost predicate UniquePids(t: seq<Slot>) {
    forall i, j :: 0 <= i < j < |t| && t[i].flags.occupied && t[j].flags.occupied ==> t[i].pid != t[j].pid
  }

  // ----- findpslot

  /** The first slot that holds the id, or |t|. */
  function Found(t: seq<Slot>, id: string, from: nat): (k: nat)
    requires from <= |t|
    ensures from <= k <= |t| && (k < |t| ==> Holds(t[k], id)) && forall i :: from <= i < k ==> !Holds(t[i], id)
    decreases |t| - from
  {
    if from == |t| || Holds(t[from], id) then from else Found(t, id, from + 1)
  }

  /** The first slot not in use, or |t|. */
  function Hole(t: seq<Slot>, from: nat): (k: nat)
    requires from <= |t|
    ensures from <= k <= |t| && (k < |t| ==> !t[k].flags.occupied) && forall i :: from <= i < k ==> t[i].flags.occupied
    decreases |t| - from
  {
    if from == |t| || !t[from].flags.occupied then from else Hole(t, from + 1)
  }

  /** The slot for an id: its own, else an empty one, else none (|t|). An empty one that is passed is wiped. */
  function SlotFor(t: seq<Slot>, id: string): (k: nat)
    ensures k <= |t| && (k < |t| ==>
              Holds(t[k], id) || (!t[k].flags.occupied && forall i :: 0 <= i < |t| ==> !Holds(t[i], id)))
  {
    if Found(t, id, 0) < |t| then Found(t, id, 0) else Hole(t, 0)
  }

  function Wiped(t: Table, id: string): (r: Table) {
    var h := Hole(t, 0);
    if h < Found(t, id, 0) then t[h := EMPTY] else t
  }

  method FindPSlot(table: array<Slot>, id: string) returns (process: nat)
    requires table.Length == NPROC
    modifies table
    ensures process == SlotFor(old(table[..]), id) && table[..] == Wiped(old(table[..]), id)
  {
    ghost var t := table[..];
    var empty: nat := NPROC;
    process := 0;
    while process < NPROC
      invariant process <= NPROC && (empty < process || empty == NPROC)
      invariant forall i :: 0 <= i < process ==> !Holds(t[i], id)
      invariant if empty < NPROC then empty == Hole(t, 0) && table[..] == t[empty := EMPTY]
                else table[..] == t && forall i :: 0 <= i < process ==> t[i].flags.occupied
    {
      if table[process].flags.occupied && table[process].id == id {
        break;
      }
      if empty == NPROC && !table[process].flags.occupied {
        empty := process;
        table[process] := EMPTY;
      }
      process := process + 1;
    }
    if process == NPROC {
      process := empty;
    }
  }

  // ----- efork

  datatype Modes = Modes(nocleanup: bool, named: bool, demand: bool)

  /** Entries of dead processes that may be freed are. */
  function Freshened(t: Table): (r: Table)
    ensures forall i :: 0 <= i < NPROC ==>
              r[i] == if t[i].flags.occupied && !t[i].flags.living && !t[i].flags.nocleanup then Cleared(t[i]) else t[i]
  {
    seq(NPROC, i requires 0 <= i < NPROC =>
      if t[i].flags.occupied && !t[i].flags.living && !t[i].flags.nocleanup then Cleared(t[i]) else t[i])
  }

  /** The first slot without flags, or NPROC. */
  function Unused(t: Table, from: nat): (k: nat)
    requires from <= NPROC
    ensures from <= k <= NPROC && (k < NPROC ==> t[k].flags == NOFLAGS)
            && forall i :: from <= i < k ==> t[i].flags != NOFLAGS
    decreases NPROC - from
  {
    if from == NPROC || t[from].flags == NOFLAGS then from else Unused(t, from + 1)
  }

  /** The slot of a process that has just been forked. */
  function Forked(s: Slot, modes: Modes, pid: int): Slot {
    s.(id := "", pid := pid, exit := 0,
       flags := Flags(true, true, modes.nocleanup, modes.named, modes.demand, false, false, false))
  }

  /** The slot efork uses: the one it is given, or the first unused one if it is given none (NPROC). */
  function ForkSlot(t: Table, process: nat): nat {
    if process < NPROC then process else Unused(Freshened(t), 0)
  }

  /** The table after efork; without room for the process nothing records it. */
  function EforkTable(t: Table, process: nat, modes: Modes, pid: int): Table {
    var f, k := Freshened(t), ForkSlot(t, process);
    if k >= NPROC then f
    else f[k := Forked(if process < NPROC then f[k] else f[k].(time := 0, count := 0), modes, pid)]
  }

  method Freshen(table: array<Slot>)
    requires table.Length == NPROC
    modifies table
    ensures table[..] == Freshened(old(table[..]))
  {
    ghost var t := table[..];
    for proc := 0 to NPROC
      invariant forall i :: 0 <= i < NPROC ==> table[i] == if i < proc then Freshened(t)[i] else t[i]
    {
      if table[proc].flags.occupied && !table[proc].flags.living && !table[proc].flags.nocleanup {
        table[proc] := Cleared(table[proc]);
      }
    }
  }

  method EFork(table: array<Slot>, process0: nat, modes: Modes, childpid: int) returns (process: nat)
    requires table.Length == NPROC && process0 <= NPROC
    modifies table
    ensures process == ForkSlot(old(table[..]), process0)
    ensures table[..] == EforkTable(old(table[..]), process0, modes, childpid)
  {
    hide Freshened;
    process := process0;
    Freshen(table);
    ghost var f := table[..];
    if process == NPROC {
      process := 0;
      while process < NPROC && table[process].flags != NOFLAGS
        invariant process <= NPROC && table[..] == f && Unused(f, 0) == Unused(f, process)
      {
        process := process + 1;
      }
      if process == NPROC {
        return;
      }
      table[process] := table[process].(time := 0, count := 0);
    }
    table[process] := Forked(table[process], modes, childpid);
  }

  // ----- the signal handlers

  function Dead(s: Slot, status: int): Slot {
    s.(exit := status, flags := s.flags.(living := false))
  }

  /** childeath: the first slot in use that has the process id is marked dead. */
  function Died(t: Table, pid: int, status: int): (r: Table)
    ensures forall i :: 0 <= i < NPROC ==>
              r[i] == t[i] || (t[i].flags.occupied && t[i].pid == pid && r[i] == Dead(t[i], status))
  {
    var k := OfPid(t, pid, 0);
    if k < NPROC then t[k := Dead(t[k], status)] else t
  }

  function OfPid(t: Table, pid: int, from: nat): (k: nat)
    requires from <= NPROC
    ensures from <= k <= NPROC && (k < NPROC ==> t[k].flags.occupied && t[k].pid == pid)
    ensures forall i :: from <= i < k ==> !(t[i].flags.occupied && t[i].pid == pid)
    decreases NPROC - from
  {
    if from == NPROC || (t[from].flags.occupied && t[from].pid == pid) then from else OfPid(t, pid, from + 1)
  }

  method ChildDeath(table: array<Slot>, pid: int, status: int) returns (childdeath: bool)
    requires table.Length == NPROC
    modifies table
    ensures table[..] == Died(old(table[..]), pid, status)
    ensures childdeath <==> exists i :: 0 <= i < NPROC && old(table[i].flags.occupied && table[i].pid == pid)
  {
    childdeath := false;
    var process: nat := 0;
    while process < NPROC
      invariant process <= NPROC && table[..] == old(table[..]) && !childdeath
      invariant OfPid(table[..], pid, 0) == OfPid(table[..], pid, process)
    {
      if table[process].flags.occupied && table[process].pid == pid {
        table[process] := Dead(table[process], status);
        childdeath := true;
        break;
      }
      process := process + 1;
    }
  }

  /** siglvl: all times and repeat counts are forgotten. */
  function Forgiven(t: Table): (r: Table)
    ensures forall i :: 0 <= i < NPROC ==> r[i] == t[i].(time := 0, count := 0)
  {
    seq(NPROC, i requires 0 <= i < NPROC => t[i].(time := 0, count := 0))
  }

  method Forgive(table: array<Slot>)
    requires table.Length == NPROC
    modifies table
    ensures table[..] == Forgiven(old(table[..]))
  {
    ghost var t := table[..];
    for process := 0 to NPROC
      invariant forall i :: 0 <= i < NPROC ==> table[i] == if i < process then Forgiven(t)[i] else t[i]
    {
      table[process] := table[process].(time := 0, count := 0);
    }
  }

  // ----- what keeps ids and process ids unique

  /** Slots that are freed, or change nothing but flags, times and counts, do no harm. */
  lemma FewerIds(t: seq<Slot>, r: seq<Slot>)
    requires |r| == |t| && forall i :: 0 <= i < |t| && r[i].flags.occupied ==>
               t[i].flags.occupied && r[i].id == t[i].id && r[i].pid == t[i].pid
    ensures UniqueIds(t) ==> UniqueIds(r)
    ensures UniquePids(t) ==> UniquePids(r)
  {
  }

  lemma NewProcess(t: seq<Slot>, k: nat, s: Slot)
    requires k < |t| && s.id == "" && forall i :: 0 <= i < |t| && t[i].flags.occupied ==> t[i].pid != s.pid
    ensures UniqueIds(t) ==> UniqueIds(t[k := s])
    ensures UniquePids(t) ==> UniquePids(t[k := s])
  {
  }

  /** A forked process has no id yet, and a process id that is not in use. */
  lemma EforkKeeps(t: Table, process: nat, modes: Modes, pid: int)
    requires forall i :: 0 <= i < NPROC && t[i].flags.occupied ==> t[i].pid != pid
    ensures UniqueIds(t) ==> UniqueIds(EforkTable(t, process, modes, pid))
    ensures UniquePids(t) ==> UniquePids(EforkTable(t, process, modes, pid))
  {
    var f, k := Freshened(t), ForkSlot(t, process);
    hide Freshened, Unused, UniqueIds, UniquePids;
    FewerIds(t, f);
    if k < NPROC {
      NewProcess(f, k, Forked(if process < NPROC then f[k] else f[k].(time := 0, count := 0), modes, pid));
    }
  }

  /** A process gets an id that no other slot in use has. */
  lemma NameKeeps(t: Table, k: nat, id: string)
    requires k < NPROC && forall i :: 0 <= i < NPROC && i != k ==> !Holds(t[i], id)
    ensures UniqueIds(t) ==> UniqueIds(t[k := t[k].(id := id)])
    ensures UniquePids(t) ==> UniquePids(t[k := t[k].(id := id)])
  {
  }
}
