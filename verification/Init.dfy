/**
 The main loop of init.c as a state machine: one step for each action of the
 program, and the signal handlers may run between any two steps.
 */
module Init {
  import opened InitTable
  import Sums

  // ----- levels, which are signal numbers

  const LVLQ: int := 1
  const LVL0: int := 2
  const LVL6: int := 8
  const SINGLE_USER: int := 10
  const LVLa: int := 11
  const LVLb: int := 12
  const LVLc: int := 13

  predicate Demand(level: int) {
    level == LVLa || level == LVLb || level == LVLc
  }

  datatype Action = OFF | RESPAWN | ONCE | WAIT | BOOT | BOOTWAIT | POWERFAIL | POWERWAIT | INITDEFAULT | SYSINIT

  datatype OpModes = BOOT_MODES | NORMAL_MODES | PF_MODES

  /** cmd.c_action & op_modes */
  predicate Legal(a: Action, m: OpModes) {
    match m
    case NORMAL_MODES => a == OFF || a == RESPAWN || a == ONCE || a == WAIT
    case BOOT_MODES => a == BOOT || a == BOOTWAIT
    case PF_MODES => a == POWERFAIL || a == POWERWAIT
  }

  /** struct CMD_LINE: an entry of inittab. */
  datatype Cmd = Cmd(id: string, levels: set<int>, action: Action)

  /** Where the program is. */
  datatype PC =
    | Top
    | RemoveScan            // remove: an entry of inittab is read
    | RemoveWait            // remove: warned processes are waited for
    | RemoveRescan(k: nat)  // remove: slot k is looked at
    | Report
    | SpawnStart
    | SpawnScan             // spawn: an entry of inittab is read
    | Fork(slot: nat, cmd: Cmd)
    | NameIt(slot: nat, cmd: Cmd)
    | WaitChild(slot: nat)
    | AfterSpawn
    | SuFork
    | SuWait(slot: nat)
    | SuAsk
    | SuDone
    | Decide
    | Pause
    | WokenUser
    | WokenReset
    | WokenPower
    | WokenClear

  datatype Wake = Wake(usersignal: bool, childdeath: bool, powerhit: bool)

  const AWAKE: Wake := Wake(false, false, false)

  datatype Levels = Levels(cur: int, prior: int, prev: int, new_state: int)

  /**
   What the program does not keep: the level a demand request left; whether a
   power failure has come for which no pass over inittab in powerfail mode has
   begun since; whether such a pass has begun and not ended.
   */
  datatype History = History(left: int, owed: bool, serving: bool)

  datatype State = State(
    pc: PC, table: Table, lv: Levels, modes: OpModes, wake: Wake, time_up: bool, chg_lvl: bool, ago: History)

  /**
   What the program finds when it looks: the next entry of inittab, a process
   id from fork, the time, a level from the user.
   */
  datatype Input = Input(cmd: Option<Cmd>, pid: int, now: int, level: int)

  datatype Option<T> = None | Some(value: T)

  /** What a signal handler is called for. */
  datatype Event = Death(pid: int, status: int) | UserSignal(sig: int) | PowerFail | Alarm

  // ----- the handlers

  function Handle(s: State, e: Event): State {
    match e
    case Death(pid, status) =>
      var found := OfPid(s.table, pid, 0) < NPROC;
      s.(table := Died(s.table, pid, status), wake := s.wake.(childdeath := s.wake.childdeath || found))
    case UserSignal(sig) =>
      s.(lv := s.lv.(new_state := if sig == LVLQ then s.lv.cur else sig),
         table := Forgiven(s.table), wake := s.wake.(usersignal := true))
    case PowerFail => s.(wake := s.wake.(powerhit := true), ago := s.ago.(owed := true))
    case Alarm => s.(time_up := true)
  }

  // ----- remove

  /** Slot k gets flags f. */
  function Flagged(t: Table, k: nat, f: Flags): Table
    requires k < NPROC
  {
    t[k := WithFlags(t[k], f)]
  }

  /** The table after killproc for slot k. */
  function KilledBy(t: Table, k: nat, pid: int): Table
    requires k < NPROC
  {
    var f := EforkTable(t, NPROC, Modes(false, false, false), pid);
    Flagged(f, k, f[k].flags.(killed := true))
  }

  /** Whether a process may not stay at the current level. */
  predicate MustGo(f: Flags, cmd: Cmd, cur: int) {
    cur == SINGLE_USER || cmd.action == OFF || (cur !in cmd.levels && !f.demand)
  }

  /** One entry of inittab is compared with the process that belongs to it. */
  function RemoveEntry(t: Table, lv: Levels, cmd: Cmd, pid: int): Table {
    var k := Found(t, cmd.id, 0);
    if k == NPROC then t
    else
      var f := t[k].flags;
      if MustGo(f, cmd, lv.cur) then
        if !f.living then t
        else if f.killed then Flagged(t, k, f.(touched := true))
        else if lv.cur != lv.prev then Flagged(t, k, f.(touched := true, warned := true, killed := true))
        else KilledBy(Flagged(t, k, f.(touched := true)), k, pid)
      else if f.living || f.demand then Flagged(t, k, f.(touched := true))
      else t
  }

  /** A warned process is still alive. */
  predicate Lingering(t: Table) {
    exists i :: 0 <= i < NPROC && t[i].flags.warned && t[i].flags.living && t[i].flags.occupied
  }

  /** One slot is looked at after all entries have been. */
  function RescanSlot(t: Table, k: nat, pid: int): Table
    requires k < NPROC
  {
    var f := t[k].flags;
    if f.living && f.named && f.occupied && !f.touched && !f.killed then KilledBy(t, k, pid)
    else if !f.living && f.named && f.occupied && !f.touched then Flagged(t, k, NOFLAGS)
    else t
  }

  function Untouched(t: Table): (r: Table)
    ensures forall i :: 0 <= i < NPROC ==> r[i] == WithFlags(t[i], t[i].flags.(touched := false))
  {
    seq(NPROC, i requires 0 <= i < NPROC => WithFlags(t[i], t[i].flags.(touched := false)))
  }

  /** The steps of remove. */
  function RemoveStep(s: State, x: Input): State {
    match s.pc
    case RemoveScan =>
      if x.cmd.Some? then s.(table := RemoveEntry(s.table, s.lv, x.cmd.value, x.pid))
      else if s.lv.cur != s.lv.prev then s.(time_up := false, pc := RemoveWait)
      else s.(pc := RemoveRescan(0))
    case RemoveWait => if !s.time_up && Lingering(s.table) then s else s.(pc := RemoveRescan(0))
    case RemoveRescan(k) =>
      if k < NPROC then s.(table := RescanSlot(s.table, k, x.pid), pc := RemoveRescan(k + 1)) else s.(pc := Report)
    case _ => s
  }

  // ----- spawn

  /** Whether an entry of inittab is to be started, given the flags of the slot found for it. */
  predicate Wanted(f: Flags, cmd: Cmd, modes: OpModes, lv: Levels) {
    || (f.demand && !f.living && (exists l :: l in cmd.levels && Demand(l)) && cmd.action == RESPAWN
         && modes == NORMAL_MODES)
    || (Legal(cmd.action, modes) && !f.living && lv.cur in cmd.levels
        && !(modes == NORMAL_MODES
             && (cmd.action == OFF || ((cmd.action == ONCE || cmd.action == WAIT) && lv.cur == lv.prev))))
  }

  /** respawn's check on how often a command has been started lately: may it be started? */
  predicate MayStart(p: Slot, now: int) {
    || p.time == 0
    || (if p.count == SPAWN_LIMIT then now - p.time >= SPAWN_INTERVAL
        else p.count + 1 <= SPAWN_LIMIT || now - p.time >= SPAWN_INTERVAL + INHIBIT)
  }

  /** What the check leaves in the slot. */
  function Throttled(p: Slot, now: int): Slot {
    if p.time == 0 then p.(time := now)
    else if !MayStart(p, now) || p.count < SPAWN_LIMIT then p.(count := p.count + 1)
    else p.(time := now, count := 0)
  }

  /** The table once an entry has found its slot and been checked. */
  function SpawnTable(s: State, cmd: Cmd, now: int): Table {
    var k, t := SlotFor(s.table, cmd.id), Wiped(s.table, cmd.id);
    if k < NPROC && Wanted(t[k].flags, cmd, s.modes, s.lv) && cmd.action == RESPAWN then t[k := Throttled(t[k], now)]
    else t
  }

  /** Whether the entry is started. */
  predicate Starts(s: State, cmd: Cmd, now: int) {
    var k, t := SlotFor(s.table, cmd.id), Wiped(s.table, cmd.id);
    k < NPROC && Wanted(t[k].flags, cmd, s.modes, s.lv) && (cmd.action == RESPAWN ==> MayStart(t[k], now))
  }

  /** Actions that are waited for. */
  predicate Waits(a: Action) {
    !(a == ONCE || a == RESPAWN || a == POWERFAIL || a == BOOT)
  }

  function ForkModes(s: State, f: Flags, a: Action): Modes {
    Modes(a == SYSINIT || a == WAIT || a == BOOTWAIT || a == POWERWAIT || a == RESPAWN, true,
      f.demand || Demand(s.lv.cur))
  }

  /** The slot of a process that has been waited for is freed. */
  function Freed(t: Table, k: nat): Table {
    if k < NPROC then Flagged(t, k, NOFLAGS) else t
  }

  /** The steps of spawn. */
  function SpawnStep(s: State, x: Input): State {
    match s.pc
    case SpawnStart =>
      var modes := if s.wake.powerhit then PF_MODES else s.modes;
      var owed := s.ago.owed;
      s.(wake := s.wake.(powerhit := false), modes := modes, pc := SpawnScan,
         ago := s.ago.(owed := owed && modes != PF_MODES, serving := owed && modes == PF_MODES))
    case SpawnScan =>
      if x.cmd.None? then s.(ago := s.ago.(serving := s.ago.serving && s.modes != PF_MODES), pc := AfterSpawn)
      else
        s.(table := SpawnTable(s, x.cmd.value, x.now),
           pc := if Starts(s, x.cmd.value, x.now) then Fork(SlotFor(s.table, x.cmd.value.id), x.cmd.value)
             else SpawnScan)
    case Fork(k, cmd) =>
      if k < NPROC then
        s.(table := EforkTable(s.table, k, ForkModes(s, s.table[k].flags, cmd.action), x.pid), pc := NameIt(k, cmd))
      else s.(pc := SpawnScan)
    case NameIt(k, cmd) =>
      if k < NPROC then
        s.(table := s.table[k := s.table[k].(id := cmd.id)], pc := if Waits(cmd.action) then WaitChild(k)
          else SpawnScan)
      else s.(pc := SpawnScan)
    case WaitChild(k) =>
      if k < NPROC && s.table[k].flags.living then s else s.(table := Freed(s.table, k), pc := SpawnScan)
    case _ => s
  }

  // ----- single

  /** A level other than single user has been chosen. */
  function Chosen(lv: Levels, level: int): Levels {
    Levels(level, if lv.cur >= 0 then lv.cur else lv.prior, lv.cur, lv.new_state)
  }

  /** The steps of single, which ignores all wakeups but a request for a numbered level. */
  function SingleStep(s: State, x: Input): State {
    match s.pc
    case SuFork =>
      var k := ForkSlot(s.table, NPROC);
      s.(table := EforkTable(s.table, NPROC, Modes(true, false, false), x.pid), pc := if k < NPROC then SuWait(k)
        else SuFork)
    case SuWait(k) =>
      if k < NPROC && s.table[k].flags.living then
        if s.wake.usersignal && LVL0 <= s.lv.new_state <= LVL6
        then s.(lv := Chosen(s.lv, s.lv.new_state).(new_state := 0), wake := AWAKE, pc := SuDone)
        else s.(wake := AWAKE)
      else s.(table := Freed(s.table, k), pc := SuAsk)
    case SuAsk =>
      if LVL0 <= x.level <= LVL6 then s.(lv := Chosen(s.lv, x.level), wake := AWAKE, pc := SuDone)
      else s.(wake := AWAKE, pc := SuFork)
    case SuDone =>
      if s.lv.cur != s.lv.prev && !Demand(s.lv.cur) then s.(chg_lvl := true, pc := Top) else s.(pc := Decide)
    case _ => s
  }

  // ----- the main loop

  /** The level the user asked for becomes the current one. */
  function NewLevel(s: State): State {
    var lv := s.lv;
    if lv.new_state == lv.cur then s
    else if Demand(lv.new_state) then
      s.(lv := lv.(prev := lv.prior, prior := lv.cur, cur := lv.new_state), ago := s.ago.(left := lv.cur))
    else s.(lv := Chosen(lv, lv.new_state), chg_lvl := true)
  }

  /** What follows a whole pass over inittab. */
  function Decision(s: State): State {
    var lv := s.lv;
    if s.wake.powerhit then s.(modes := PF_MODES, lv := lv.(prev := 0), pc := Top)
    else if s.modes != NORMAL_MODES then
      s.(lv := if s.modes == PF_MODES then lv.(prev := lv.cur) else lv, modes := NORMAL_MODES, pc := Top)
    else if Demand(lv.cur) then s.(lv := lv.(cur := lv.prior, prior := lv.prev, prev := lv.prior), pc := Top)
    else s.(lv := lv.(prev := lv.cur), time_up := false, pc := Pause)
  }

  /** The steps of the loop itself. */
  function LoopStep(s: State): State {
    match s.pc
    case Top =>
      if s.modes == NORMAL_MODES && !Demand(s.lv.cur) then s.(table := Untouched(s.table), pc := RemoveScan)
      else s.(pc := Report)
    case Report => s.(chg_lvl := false, pc := SpawnStart)
    case AfterSpawn => s.(pc := if s.lv.cur == SINGLE_USER then SuFork else Decide)
    case Decide => Decision(s)
    case Pause => if s.wake != AWAKE then s.(pc := WokenUser) else s
    case WokenUser => if s.wake.usersignal then NewLevel(s).(pc := WokenReset) else s.(pc := WokenPower)
    case WokenReset => s.(lv := s.lv.(new_state := 0), pc := WokenPower)
    case WokenPower => s.(modes := if s.wake.powerhit then PF_MODES else s.modes, pc := WokenClear)
    case WokenClear => s.(wake := AWAKE, pc := Top)
    case _ => s
  }

  predicate InRemove(pc: PC) {
    pc.RemoveScan? || pc.RemoveWait? || pc.RemoveRescan?
  }

  predicate InSpawn(pc: PC) {
    pc.SpawnStart? || pc.SpawnScan? || pc.Fork? || pc.NameIt? || pc.WaitChild?
  }

  predicate InSingle(pc: PC) {
    pc.SuFork? || pc.SuWait? || pc.SuAsk? || pc.SuDone?
  }

  /** One step of the program. */
  function Proceed(s: State, x: Input): State {
    if InRemove(s.pc) then RemoveStep(s, x)
    else if InSpawn(s.pc) then SpawnStep(s, x)
    else if InSingle(s.pc) then SingleStep(s, x)
    else LoopStep(s)
  }

  // ----- runs

  /** The program takes a step, or a signal arrives. */
  datatype Act = Do(x: Input) | Got(e: Event)

  function After(s: State, a: Act): State {
    match a
    case Do(x) => Proceed(s, x)
    case Got(e) => Handle(s, e)
  }

  /** fork never gives the process id of a process in the table. */
  predicate Fresh(t: Table, pid: int) {
    forall i :: 0 <= i < NPROC && t[i].flags.occupied ==> t[i].pid != pid
  }

  function Run(s: State, acts: seq<Act>): State
    decreases |acts|
  {
    if |acts| == 0 then s else Run(After(s, acts[0]), acts[1..])
  }

  ghost predicate FreshPids(s: State, acts: seq<Act>)
    decreases |acts|
  {
    |acts| > 0 ==> (acts[0].Do? ==> Fresh(s.table, acts[0].x.pid)) && FreshPids(After(s, acts[0]), acts[1..])
  }

  // ----- one slot for each id

  /** No slot in use but k holds the id. */
  ghost predicate OnlySlot(t: Table, k: nat, id: string) {
    id != "" ==> forall i :: 0 <= i < NPROC && i != k ==> !Holds(t[i], id)
  }

  ghost predicate Unique(t: Table) {
    UniqueIds(t) && UniquePids(t)
  }

  ghost predicate TableOk(s: State) {
    && Unique(s.table)
    && (s.pc.Fork? ==> OnlySlot(s.table, s.pc.slot, s.pc.cmd.id))
    && (s.pc.NameIt? ==> OnlySlot(s.table, s.pc.slot, s.pc.cmd.id))
  }

  /** r is t with some slots freed and nothing else in use. */
  ghost predicate Fewer(t: Table, r: Table) {
    forall i :: 0 <= i < NPROC && r[i].flags.occupied ==>
      t[i].flags.occupied && r[i].id == t[i].id && r[i].pid == t[i].pid
  }

  lemma FewerOk(t: Table, r: Table)
    requires Fewer(t, r)
    ensures Unique(t) ==> Unique(r)
    ensures forall k, id :: OnlySlot(t, k, id) ==> OnlySlot(r, k, id)
  {
    FewerIds(t, r);
  }

  lemma OneSlotOk(t: Table, k: nat, p: Slot)
    requires k < NPROC && (p.flags.occupied ==> t[k].flags.occupied && p.id == t[k].id && p.pid == t[k].pid)
    ensures Unique(t) ==> Unique(t[k := p])
    ensures forall id :: OnlySlot(t, k, id) ==> OnlySlot(t[k := p], k, id)
  {
    hide Unique;
    FewerOk(t, t[k := p]);
  }

  lemma HandleOk(s: State, e: Event)
    requires TableOk(s)
    ensures TableOk(Handle(s, e))
  {
    hide Unique, OnlySlot;
    FewerOk(s.table, Handle(s, e).table);
  }

  lemma EforkOk(t: Table, k: nat, modes: Modes, pid: int)
    requires Unique(t) && Fresh(t, pid)
    ensures Unique(EforkTable(t, k, modes, pid))
    ensures k < NPROC ==> forall id :: OnlySlot(t, k, id) ==> OnlySlot(EforkTable(t, k, modes, pid), k, id)
  {
    EforkKeeps(t, k, modes, pid);
  }

  lemma KillOk(t: Table, k: nat, pid: int)
    requires Unique(t) && Fresh(t, pid) && k < NPROC
    ensures Unique(KilledBy(t, k, pid))
  {
    hide Unique, Fresh, EforkTable;
    var f := EforkTable(t, NPROC, Modes(false, false, false), pid);
    EforkOk(t, NPROC, Modes(false, false, false), pid);
    OneSlotOk(f, k, WithFlags(f[k], f[k].flags.(killed := true)));
  }

  lemma FlagOk(t: Table, k: nat, f: Flags)
    requires k < NPROC && Unique(t) && (f.occupied ==> t[k].flags.occupied)
    ensures Unique(Flagged(t, k, f))
  {
    hide Unique;
    OneSlotOk(t, k, WithFlags(t[k], f));
  }

  lemma RescanOk(t: Table, k: nat, pid: int)
    requires Unique(t) && Fresh(t, pid) && k < NPROC
    ensures Unique(RescanSlot(t, k, pid))
  {
    hide Unique, Fresh, KilledBy, Flagged;
    KillOk(t, k, pid);
    FlagOk(t, k, NOFLAGS);
  }

  lemma RemoveEntryOk(t: Table, lv: Levels, cmd: Cmd, pid: int)
    requires Unique(t) && Fresh(t, pid)
    ensures Unique(RemoveEntry(t, lv, cmd, pid))
  {
    hide Unique, KilledBy, Flagged, MustGo, Found, Fresh;
    var k := Found(t, cmd.id, 0);
    if k < NPROC {
      var f := t[k].flags;
      FlagOk(t, k, f.(touched := true));
      FlagOk(t, k, f.(touched := true, warned := true, killed := true));
      FreshFlagged(t, k, f.(touched := true), pid);
      KillOk(Flagged(t, k, f.(touched := true)), k, pid);
    }
  }

  lemma FreshFlagged(t: Table, k: nat, f: Flags, pid: int)
    requires Fresh(t, pid) && k < NPROC && (f.occupied ==> t[k].flags.occupied)
    ensures Fresh(Flagged(t, k, f), pid)
  {
  }

  lemma RemoveOk(s: State, x: Input)
    requires TableOk(s) && Fresh(s.table, x.pid) && InRemove(s.pc)
    ensures TableOk(RemoveStep(s, x))
  {
    hide Unique, Fresh, RemoveEntry, RescanSlot, Lingering;
    if s.pc.RemoveScan? && x.cmd.Some? {
      RemoveEntryOk(s.table, s.lv, x.cmd.value, x.pid);
    } else if s.pc.RemoveRescan? && s.pc.k < NPROC {
      RescanOk(s.table, s.pc.k, x.pid);
    }
  }

  lemma WipedOk(t: Table, id: string)
    requires Unique(t)
    ensures Unique(Wiped(t, id))
    ensures SlotFor(t, id) < NPROC ==> OnlySlot(Wiped(t, id), SlotFor(t, id), id)
  {
    FewerOk(t, Wiped(t, id));
  }

  lemma SpawnTableOk(s: State, cmd: Cmd, now: int)
    requires Unique(s.table)
    ensures Unique(SpawnTable(s, cmd, now))
    ensures Starts(s, cmd, now) ==> OnlySlot(SpawnTable(s, cmd, now), SlotFor(s.table, cmd.id), cmd.id)
  {
    hide Unique, OnlySlot, Wanted, MayStart, Wiped, SlotFor;
    var k, t := SlotFor(s.table, cmd.id), Wiped(s.table, cmd.id);
    WipedOk(s.table, cmd.id);
    if k < NPROC {
      OneSlotOk(t, k, Throttled(t[k], now));
    }
  }

  lemma NamedOk(t: Table, k: nat, id: string)
    requires Unique(t) && k < NPROC && OnlySlot(t, k, id)
    ensures Unique(t[k := t[k].(id := id)])
  {
    if id != "" {
      NameKeeps(t, k, id);
    }
  }

  lemma FreedOk(t: Table, k: nat)
    requires Unique(t)
    ensures Unique(Freed(t, k))
  {
    hide Unique;
    if k < NPROC {
      FlagOk(t, k, NOFLAGS);
    }
  }

  lemma SpawnOk(s: State, x: Input)
    requires TableOk(s) && Fresh(s.table, x.pid) && InSpawn(s.pc)
    ensures TableOk(SpawnStep(s, x))
  {
    hide Unique, Fresh, OnlySlot, SpawnTable, Starts, EforkTable, Freed;
    match s.pc
    case SpawnScan =>
      if x.cmd.Some? {
        SpawnTableOk(s, x.cmd.value, x.now);
      }
    case Fork(k, cmd) =>
      if k < NPROC {
        EforkOk(s.table, k, ForkModes(s, s.table[k].flags, cmd.action), x.pid);
      }
    case NameIt(k, cmd) =>
      if k < NPROC {
        NamedOk(s.table, k, cmd.id);
      }
    case WaitChild(k) => FreedOk(s.table, k);
    case _ =>
  }

  lemma SingleOk(s: State, x: Input)
    requires TableOk(s) && Fresh(s.table, x.pid) && InSingle(s.pc)
    ensures TableOk(SingleStep(s, x))
  {
    hide Unique, Fresh, OnlySlot, EforkTable, Freed, ForkSlot, Chosen;
    if s.pc.SuFork? {
      EforkOk(s.table, NPROC, Modes(true, false, false), x.pid);
    } else if s.pc.SuWait? {
      FreedOk(s.table, s.pc.slot);
    }
  }

  lemma LoopOk(s: State)
    requires TableOk(s) && !InRemove(s.pc) && !InSpawn(s.pc) && !InSingle(s.pc)
    ensures TableOk(LoopStep(s))
  {
    hide Unique, OnlySlot, Demand, Untouched;
    UntouchedOk(s.table);
  }

  lemma UntouchedOk(t: Table)
    requires Unique(t)
    ensures Unique(Untouched(t))
  {
    FewerOk(t, Untouched(t));
  }

  /** One action, of the program or of a handler, keeps one slot for each id and each process. */
  lemma ActOk(s: State, a: Act)
    requires TableOk(s) && (a.Do? ==> Fresh(s.table, a.x.pid))
    ensures TableOk(After(s, a))
  {
    hide TableOk, Handle, RemoveStep, SpawnStep, SingleStep, LoopStep, Fresh;
    match a
    case Got(e) => HandleOk(s, e);
    case Do(x) =>
      if InRemove(s.pc) {
        RemoveOk(s, x);
      } else if InSpawn(s.pc) {
        SpawnOk(s, x);
      } else if InSingle(s.pc) {
        SingleOk(s, x);
      } else {
        LoopOk(s);
      }
  }

  /**
   In every run, whatever children die and whatever signals arrive when, at
   most one slot in use carries any id of inittab, and no process has two.
   */
  lemma {:induction false} OneSlotPerId(s: State, acts: seq<Act>)
    requires TableOk(s) && FreshPids(s, acts)
    ensures UniqueIds(Run(s, acts).table) && UniquePids(Run(s, acts).table)
    decreases |acts|
  {
    if |acts| > 0 {
      hide TableOk, After;
      ActOk(s, acts[0]);
      OneSlotPerId(After(s, acts[0]), acts[1..]);
    }
  }

  // ----- demand levels

  /**
   While a demand level is current it is known which level to go back to, and
   init neither pauses nor is in single user mode.
   */
  ghost predicate DemandOk(s: State) {
    Demand(s.lv.cur) ==>
      && s.lv.prior == s.ago.left && !Demand(s.ago.left)
      && !(InRemove(s.pc) || InSingle(s.pc) || s.pc.Pause? || s.pc.WokenUser?)
  }

  /** While a demand level is current, a step keeps it or goes back to the level it left. */
  ghost predicate GoesBack(s: State, r: State) {
    Demand(s.lv.cur) ==> r.ago.left == s.ago.left && (r.lv.cur == s.lv.cur || r.lv.cur == s.ago.left)
  }

  lemma RemoveDemand(s: State, x: Input)
    requires DemandOk(s) && InRemove(s.pc)
    ensures DemandOk(RemoveStep(s, x))
  {
    hide RemoveEntry, RescanSlot, Lingering, Demand;
  }

  lemma SpawnDemand(s: State, x: Input)
    requires DemandOk(s) && InSpawn(s.pc)
    ensures DemandOk(SpawnStep(s, x)) && GoesBack(s, SpawnStep(s, x))
  {
    hide SpawnTable, Starts, EforkTable, Freed, Demand, Waits, ForkModes;
  }

  lemma SingleDemand(s: State, x: Input)
    requires DemandOk(s) && InSingle(s.pc)
    ensures DemandOk(SingleStep(s, x))
  {
    hide EforkTable, ForkSlot, Freed;
  }

  lemma LoopDemand(s: State)
    requires DemandOk(s) && !InRemove(s.pc) && !InSpawn(s.pc) && !InSingle(s.pc)
    ensures DemandOk(LoopStep(s)) && GoesBack(s, LoopStep(s))
  {
    hide Untouched;
  }

  lemma HandleDemand(s: State, e: Event)
    requires DemandOk(s)
    ensures DemandOk(Handle(s, e)) && GoesBack(s, Handle(s, e))
  {
    hide Died, Forgiven, OfPid, Demand;
  }

  lemma DemandKept(s: State, a: Act)
    requires DemandOk(s)
    ensures DemandOk(After(s, a)) && GoesBack(s, After(s, a))
  {
    hide Handle, RemoveStep, SpawnStep, SingleStep, LoopStep;
    match a
    case Got(e) => HandleDemand(s, e);
    case Do(x) =>
      if InRemove(s.pc) {
        RemoveDemand(s, x);
      } else if InSpawn(s.pc) {
        SpawnDemand(s, x);
      } else if InSingle(s.pc) {
        SingleDemand(s, x);
      } else {
        LoopDemand(s);
      }
  }

  /** A demand level is current all the way through a run, except perhaps at its end. */
  ghost predicate DemandUntilEnd(s: State, acts: seq<Act>)
    decreases |acts|
  {
    |acts| > 0 ==> Demand(s.lv.cur) && DemandUntilEnd(After(s, acts[0]), acts[1..])
  }

  /** In every run, power failures or not, init comes back from a demand level to the level that it left. */
  lemma {:induction false} DemandReturns(s: State, acts: seq<Act>)
    requires DemandOk(s) && Demand(s.lv.cur) && DemandUntilEnd(s, acts)
    ensures Demand(Run(s, acts).lv.cur) || Run(s, acts).lv.cur == s.ago.left
    decreases |acts|
  {
    if |acts| > 0 {
      hide DemandOk, After, Demand;
      DemandKept(s, acts[0]);
      if |acts| > 1 {
        DemandReturns(After(s, acts[0]), acts[1..]);
      } else {
        NothingMore(After(s, acts[0]), acts[1..]);
      }
    }
  }

  lemma NothingMore(s: State, acts: seq<Act>)
    requires acts == []
    ensures Run(s, acts) == s
  {
  }

  // ----- a demand level ends

  /** What limits a pass over inittab: entries to come, steps a child is waited for, power failures. */
  datatype Budget = Budget(entries: nat, waits: nat, failures: nat)

  /** What is left of the budget after an action; entries and waits are granted anew where a scan or a wait begins. */
  function Spent(s: State, a: Act, b: Budget, full: Budget): Option<Budget> {
    if a.Got? then (if a.e != PowerFail then Some(b) else if b.failures > 0 then Some(b.(failures := b.failures - 1))
    else None)
    else if s.pc.SpawnStart? then Some(b.(entries := full.entries))
    else if s.pc.SpawnScan? && a.x.cmd.Some? then (if b.entries > 0 then Some(b.(entries := b.entries - 1)) else None)
    else if s.pc.NameIt? then Some(b.(waits := full.waits))
    else if s.pc.WaitChild? && s.pc.slot < NPROC && s.table[s.pc.slot].flags.living then
      (if b.waits > 0 then Some(b.(waits := b.waits - 1)) else None)
    else Some(b)
  }

  /** inittab is finite, children that are waited for die, and there are finitely many power failures. */
  ghost predicate Within(s: State, acts: seq<Act>, b: Budget, full: Budget)
    decreases |acts|
  {
    |acts| > 0 ==>
      var c := Spent(s, acts[0], b, full);
      c.Some? && Within(After(s, acts[0]), acts[1..], c.value, full)
  }

  /** The number of steps the program takes. */
  function Steps(acts: seq<Act>): nat
    decreases |acts|
  {
    if |acts| == 0 then 0 else Steps(acts[1..]) + if acts[0].Do? then 1 else 0
  }

  /** The most that one entry can take. */
  function EntryTime(full: Budget): nat {
    full.waits + 4
  }

  /** More than a pass can take, from waking up to the decision. */
  function PassTime(full: Budget): nat {
    full.entries * EntryTime(full) + 10
  }

  /** The steps to the end of the current pass. */
  function ToDecision(pc: PC, b: Budget, full: Budget): nat {
    var scan := b.entries * EntryTime(full) + 3;
    var whole := full.entries * EntryTime(full) + 4;
    match pc
    case WokenReset => whole + 5
    case WokenPower => whole + 4
    case WokenClear => whole + 3
    case Top => whole + 2
    case Report => whole + 1
    case SpawnStart => whole
    case SpawnScan => scan
    case Fork(_, _) => scan + full.waits + 3
    case NameIt(_, _) => scan + full.waits + 2
    case WaitChild(_) => scan + b.waits + 1
    case AfterSpawn => 2
    case Decide => 1
    case _ => 0
  }

  /** The passes that follow the current one. */
  function PassesLeft(s: State): nat {
    if s.pc.SpawnScan? || s.pc.Fork? || s.pc.NameIt? || s.pc.WaitChild? || s.pc.AfterSpawn? || s.pc.Decide? then
      if s.wake.powerhit then 2 else if s.modes != NORMAL_MODES then 1 else 0
    else if s.wake.powerhit || s.modes != NORMAL_MODES then 1
    else 0
  }

  /** A bound on the steps that a demand level can still last. */
  function Remaining(s: State, b: Budget, full: Budget): nat {
    (PassesLeft(s) + 2 * b.failures) * PassTime(full) + ToDecision(s.pc, b, full)
  }

  lemma PassCosts(p: nat, q: nat, full: Budget)
    requires p < q
    ensures p * PassTime(full) + PassTime(full) <= q * PassTime(full)
  {
    Sums.MulMono(PassTime(full), p + 1, q);
    Sums.Distribute(PassTime(full), p, 1);
  }

  lemma EntryCosts(e: nat, full: Budget)
    requires e > 0
    ensures e * EntryTime(full) == (e - 1) * EntryTime(full) + EntryTime(full)
  {
  }

  /** While a demand level stays current, each step of the program uses up some of the bound. */
  lemma StepCounts(s: State, a: Act, b: Budget, full: Budget)
    requires DemandOk(s) && Demand(s.lv.cur) && Demand(After(s, a).lv.cur) && Spent(s, a, b, full).Some?
    ensures Remaining(After(s, a), Spent(s, a, b, full).value, full) + (if a.Do? then 1 else 0) <= Remaining(s, b, full)
  {
    hide Remaining, RemoveStep, SingleStep, Died, Forgiven;
    match a
    case Got(e) => EventCounts(s, e, b, full);
    case Do(x) =>
      if InSpawn(s.pc) {
        SpawnCounts(s, x, b, full);
      } else {
        LoopCounts(s, b, full);
      }
  }

  lemma EventCounts(s: State, e: Event, b: Budget, full: Budget)
    requires Spent(s, Got(e), b, full).Some?
    ensures Remaining(Handle(s, e), Spent(s, Got(e), b, full).value, full) <= Remaining(s, b, full)
  {
    hide Died, Forgiven, OfPid, PassTime, ToDecision;
    var r, c := Handle(s, e), Spent(s, Got(e), b, full).value;
    assert ToDecision(r.pc, c, full) == ToDecision(s.pc, b, full) by { SamePlace(s.pc, b, c, full); }
    if e == PowerFail {
      var p, q := PassesLeft(r) + 2 * c.failures, PassesLeft(s) + 2 * b.failures;
      if p < q {
        PassCosts(p, q, full);
      }
    }
  }

  lemma SamePlace(pc: PC, b: Budget, c: Budget, full: Budget)
    requires b.entries == c.entries && b.waits == c.waits
    ensures ToDecision(pc, b, full) == ToDecision(pc, c, full)
  {
  }

  lemma SpawnCounts(s: State, x: Input, b: Budget, full: Budget)
    requires InSpawn(s.pc) && Spent(s, Do(x), b, full).Some?
    ensures Remaining(SpawnStep(s, x), Spent(s, Do(x), b, full).value, full) + 1 <= Remaining(s, b, full)
  {
    hide SpawnTable, Starts, EforkTable, Freed, Waits, ForkModes, PassTime, EntryTime;
    var r, c := SpawnStep(s, x), Spent(s, Do(x), b, full).value;
    SamePasses(s, x, b, full);
    if s.pc.SpawnScan? && x.cmd.Some? {
      EntryCosts(b.entries, full);
      EntryIs(full);
    }
  }

  lemma EntryIs(full: Budget)
    ensures EntryTime(full) == full.waits + 4
  {
  }

  lemma SamePasses(s: State, x: Input, b: Budget, full: Budget)
    requires InSpawn(s.pc) && Spent(s, Do(x), b, full).Some?
    ensures PassesLeft(SpawnStep(s, x)) == PassesLeft(s) && Spent(s, Do(x), b, full).value.failures == b.failures
  {
    hide SpawnTable, Starts, EforkTable, Freed, Waits, ForkModes;
  }

  lemma LoopCounts(s: State, b: Budget, full: Budget)
    requires DemandOk(s) && Demand(s.lv.cur) && !InSpawn(s.pc) && Demand(LoopStep(s).lv.cur)
    ensures Remaining(LoopStep(s), b, full) + 1 <= Remaining(s, b, full)
  {
    hide Untouched, EntryTime;
    var r := LoopStep(s);
    var p, q := PassesLeft(r) + 2 * b.failures, PassesLeft(s) + 2 * b.failures;
    if p < q {
      PassCosts(p, q, full);
    }
  }

  /**
   With finitely many entries in inittab, children that die when they are
   waited for, and finitely many power failures, a demand level ends after a
   bounded number of steps, and with it init is back at the level it left.
   */
  lemma {:induction false} DemandEnds(s: State, acts: seq<Act>, b: Budget, full: Budget) returns (n: nat)
    requires DemandOk(s) && Demand(s.lv.cur) && Within(s, acts, b, full) && Steps(acts) >= Remaining(s, b, full)
    ensures n <= |acts| && Run(s, acts[..n]).lv.cur == s.ago.left && !Demand(s.ago.left)
    decreases |acts|
  {
    hide After, Remaining, Spent;
    SomeSteps(s, b, full);
    var r := After(s, acts[0]);
    DemandKept(s, acts[0]);
    assert acts[..1][1..] == [];
    NothingMore(r, []);
    if Demand(r.lv.cur) {
      StepCounts(s, acts[0], b, full);
      var m := DemandEnds(r, acts[1..], Spent(s, acts[0], b, full).value, full);
      n := m + 1;
      assert acts[..n][1..] == acts[1..][..m] && acts[..n][0] == acts[0];
    } else {
      n := 1;
    }
  }

  lemma SomeSteps(s: State, b: Budget, full: Budget)
    requires DemandOk(s) && Demand(s.lv.cur)
    ensures Remaining(s, b, full) >= 1
  {
    hide PassTime, EntryTime;
    assert (PassesLeft(s) + 2 * b.failures) * PassTime(full) >= 0;
  }

  /** main's state when it enters its loop */
  ghost predicate Initial(s: State) {
    s.pc == Top && s.modes == BOOT_MODES && !Demand(s.lv.cur) && !s.ago.owed && !s.ago.serving && Unique(s.table)
  }

  /** In every run: when init pauses, no demand level is current. */
  lemma {:induction false} NoDemandAtPause(s: State, acts: seq<Act>)
    requires DemandOk(s)
    ensures DemandOk(Run(s, acts))
    ensures Run(s, acts).pc == Pause ==> !Demand(Run(s, acts).lv.cur)
    decreases |acts|
  {
    if |acts| > 0 {
      hide DemandOk, After;
      DemandKept(s, acts[0]);
      NoDemandAtPause(After(s, acts[0]), acts[1..]);
    }
  }

  // ----- power failures

  /** The program is between its last look at a power failure and forgetting it. */
  predicate Deaf(s: State) {
    || (s.pc == WokenClear && s.modes != PF_MODES)
    || (s.lv.cur == SINGLE_USER
         && (s.pc.SpawnScan? || s.pc.Fork? || s.pc.NameIt? || s.pc.WaitChild? || s.pc.AfterSpawn?))
    || s.pc.SuFork? || s.pc.SuWait? || s.pc.SuAsk?
  }

  /** A power failure not dealt with is still noted, or a pass for it is about to begin, or under way. */
  ghost predicate PowerOk(s: State) {
    && (s.ago.owed ==>
          && (s.wake.powerhit || (s.modes == PF_MODES
               && (s.pc.WokenClear? || s.pc.Top? || s.pc.Report? || s.pc.SpawnStart?)))
          && !Deaf(s))
    && (s.ago.serving ==> s.modes == PF_MODES && (s.pc.SpawnScan? || s.pc.Fork? || s.pc.NameIt? || s.pc.WaitChild?))
  }

  lemma PowerKept(s: State, a: Act)
    requires PowerOk(s) && (a == Got(PowerFail) ==> !Deaf(s))
    ensures PowerOk(After(s, a))
  {
    hide Handle, RemoveStep, SpawnStep, SingleStep, LoopStep;
    match a
    case Got(e) => HandlePower(s, e);
    case Do(x) =>
      if InRemove(s.pc) {
        RemovePower(s, x);
      } else if InSpawn(s.pc) {
        SpawnPower(s, x);
      } else if InSingle(s.pc) {
        SinglePower(s, x);
      } else {
        LoopPower(s);
      }
  }

  lemma HandlePower(s: State, e: Event)
    requires PowerOk(s) && (e == PowerFail ==> !Deaf(s))
    ensures PowerOk(Handle(s, e))
  {
    hide Died, Forgiven, OfPid;
  }

  lemma RemovePower(s: State, x: Input)
    requires PowerOk(s) && InRemove(s.pc)
    ensures PowerOk(RemoveStep(s, x))
  {
    hide RemoveEntry, RescanSlot, Lingering;
  }

  lemma SpawnPower(s: State, x: Input)
    requires PowerOk(s) && InSpawn(s.pc)
    ensures PowerOk(SpawnStep(s, x))
  {
    hide SpawnTable, Starts, EforkTable, Freed, Waits, ForkModes;
  }

  lemma SinglePower(s: State, x: Input)
    requires PowerOk(s) && InSingle(s.pc)
    ensures PowerOk(SingleStep(s, x))
  {
    hide EforkTable, ForkSlot, Freed, Demand, Chosen;
  }

  lemma LoopPower(s: State)
    requires PowerOk(s) && !InRemove(s.pc) && !InSpawn(s.pc) && !InSingle(s.pc)
    ensures PowerOk(LoopStep(s))
  {
    hide Untouched, Demand, Chosen;
  }

  /** No power failure arrives while the program is deaf to it. */
  ghost predicate Heard(s: State, acts: seq<Act>)
    decreases |acts|
  {
    |acts| > 0 ==> (acts[0] == Got(PowerFail) ==> !Deaf(s)) && Heard(After(s, acts[0]), acts[1..])
  }

  /** What is owed is cleared by beginning a pass in powerfail mode, and that is served only by its end. */
  lemma ServedByPass(s: State, a: Act)
    ensures
      var r := After(s, a);
      && (s.ago.owed && !r.ago.owed ==> r.ago.serving && r.modes == PF_MODES && s.pc.SpawnStart? && r.pc.SpawnScan?)
      && (s.ago.serving && !r.ago.serving && !s.pc.SpawnStart? ==>
            s.modes == PF_MODES && s.pc.SpawnScan? && r.pc.AfterSpawn? && a.Do? && a.x.cmd.None?)
  {
    hide Handle, RemoveStep, SpawnStep, SingleStep, LoopStep;
    match a
    case Got(e) => EventHistory(s, e);
    case Do(x) =>
      if InSpawn(s.pc) {
        SpawnHistory(s, x);
      } else {
        OtherHistory(s, x);
      }
  }

  lemma EventHistory(s: State, e: Event)
    ensures Handle(s, e).ago == if e == PowerFail then s.ago.(owed := true) else s.ago
  {
    hide Died, Forgiven, OfPid;
  }

  lemma SpawnHistory(s: State, x: Input)
    requires InSpawn(s.pc)
    ensures
      var r := SpawnStep(s, x);
      && (s.ago.owed && !r.ago.owed ==> r.ago.serving && r.modes == PF_MODES && s.pc.SpawnStart? && r.pc.SpawnScan?)
      && (s.ago.serving && !r.ago.serving && !s.pc.SpawnStart? ==>
            s.modes == PF_MODES && s.pc.SpawnScan? && r.pc.AfterSpawn? && x.cmd.None?)
  {
    hide EforkTable, Freed, Waits, SlotFor, SpawnTable, Starts;
  }

  lemma OtherHistory(s: State, x: Input)
    requires !InSpawn(s.pc)
    ensures Proceed(s, x).ago == s.ago.(left := Proceed(s, x).ago.left)
  {
    hide RemoveEntry, RescanSlot, Lingering, EforkTable, ForkSlot, Freed, Demand, Chosen, Untouched, SpawnStep;
  }

  /**
   In every run in which no power failure comes at a deaf moment, init does
   not stay in its pause unless, for each one, a pass over inittab in
   powerfail mode has begun after it and come to its end.
   */
  lemma {:induction false} PowerFailuresHonoured(s: State, acts: seq<Act>)
    requires PowerOk(s) && Heard(s, acts)
    ensures
      var r := Run(s, acts);
      r.pc == Pause && (r.ago.owed || r.ago.serving) ==>
        !r.ago.serving && Proceed(r, Input(None, 0, 0, 0)).pc == WokenUser
    decreases |acts|
  {
    if |acts| > 0 {
      hide PowerOk, After, Proceed, Deaf;
      PowerKept(s, acts[0]);
      PowerFailuresHonoured(After(s, acts[0]), acts[1..]);
    }
  }

  /** A state without its history. */
  function Plain(s: State): State {
    s.(ago := History(0, false, false))
  }

  /** A state that has not noted a power failure. */
  function Quiet(s: State): State {
    Plain(s).(wake := s.wake.(powerhit := false))
  }

  /** Only history tells the states apart, or the program is deaf and one of them has noted a power failure. */
  predicate NearlyAlike(s: State, r: State) {
    Plain(s) == Plain(r) || (Deaf(s) && Quiet(s) == Quiet(r))
  }

  /** What history there is makes no difference. */
  lemma PlainStep(s: State, x: Input)
    ensures Plain(Proceed(s, x)) == Plain(Proceed(Plain(s), x))
  {
    hide RemoveStep, SpawnStep, SingleStep, LoopStep;
    if InRemove(s.pc) {
      PlainRemove(s, x);
    } else if InSpawn(s.pc) {
      PlainSpawn(s, x);
    } else if InSingle(s.pc) {
      PlainSingle(s, x);
    } else {
      PlainLoop(s);
    }
  }

  lemma PlainRemove(s: State, x: Input)
    requires InRemove(s.pc)
    ensures Plain(RemoveStep(s, x)) == Plain(RemoveStep(Plain(s), x))
  {
    hide RemoveEntry, RescanSlot, Lingering;
  }

  lemma PlainTable(s: State, r: State, cmd: Cmd, now: int)
    requires r.table == s.table && r.modes == s.modes && r.lv == s.lv
    ensures SpawnTable(r, cmd, now) == SpawnTable(s, cmd, now) && Starts(r, cmd, now) == Starts(s, cmd, now)
  {
    hide SlotFor, Wiped, Wanted, MayStart, Throttled;
  }

  lemma PlainSpawn(s: State, x: Input)
    requires InSpawn(s.pc)
    ensures Plain(SpawnStep(s, x)) == Plain(SpawnStep(Plain(s), x))
  {
    hide EforkTable, Freed, Waits, SlotFor, SpawnTable, Starts;
    if s.pc.SpawnScan? && x.cmd.Some? {
      PlainTable(s, Plain(s), x.cmd.value, x.now);
    }
  }

  lemma PlainSingle(s: State, x: Input)
    requires InSingle(s.pc)
    ensures Plain(SingleStep(s, x)) == Plain(SingleStep(Plain(s), x))
  {
    hide EforkTable, ForkSlot, Freed, Demand, Chosen;
  }

  lemma PlainLoop(s: State)
    ensures Plain(LoopStep(s)) == Plain(LoopStep(Plain(s)))
  {
    hide Untouched, Demand, NewLevel, Decision;
    if s.pc.Decide? {
      PlainDecision(s);
    } else if s.pc.WokenUser? {
      PlainLevel(s);
    }
  }

  lemma PlainDecision(s: State)
    ensures Plain(Decision(s)) == Plain(Decision(Plain(s)))
  {
    hide Demand;
  }

  lemma PlainLevel(s: State)
    ensures Plain(NewLevel(s)) == Plain(NewLevel(Plain(s)))
    ensures Plain(NewLevel(s).(pc := WokenReset)) == Plain(NewLevel(Plain(s)).(pc := WokenReset))
  {
    hide Demand, Chosen;
  }

  /** While the program is deaf a power failure makes no difference either, and in the end it is forgotten. */
  lemma QuietStep(s: State, x: Input)
    requires Deaf(s)
    ensures
      var r, q := Proceed(s, x), Proceed(Quiet(s), x);
      Plain(r) == Plain(q) || (Deaf(r) && Quiet(r) == Quiet(q))
  {
    hide RemoveStep, SpawnStep, SingleStep, LoopStep;
    if InSpawn(s.pc) {
      QuietSpawn(s, x);
    } else if InSingle(s.pc) {
      QuietSingle(s, x);
    } else {
      QuietLoop(s);
    }
  }

  lemma QuietSpawn(s: State, x: Input)
    requires Deaf(s) && InSpawn(s.pc)
    ensures Deaf(SpawnStep(s, x)) && Quiet(SpawnStep(s, x)) == Quiet(SpawnStep(Quiet(s), x))
  {
    hide SpawnStep, Quiet;
    DeafSpawn(s, x);
    SameSpawn(s, x);
  }

  lemma DeafSpawn(s: State, x: Input)
    requires Deaf(s) && InSpawn(s.pc)
    ensures Deaf(SpawnStep(s, x))
  {
    hide EforkTable, Freed, Waits, SlotFor, SpawnTable, Starts;
  }

  lemma SameSpawn(s: State, x: Input)
    requires InSpawn(s.pc) && !s.pc.SpawnStart?
    ensures Quiet(SpawnStep(s, x)) == Quiet(SpawnStep(Quiet(s), x))
  {
    hide SpawnStep, Quiet;
    match s.pc
    case SpawnScan => SameScan(s, x);
    case Fork(_, _) => SameFork(s, x);
    case NameIt(_, _) => SameName(s, x);
    case _ => SameWait(s, x);
  }

  lemma SameFork(s: State, x: Input)
    requires s.pc.Fork?
    ensures Quiet(SpawnStep(s, x)) == Quiet(SpawnStep(Quiet(s), x))
  {
    hide EforkTable;
  }

  lemma SameName(s: State, x: Input)
    requires s.pc.NameIt?
    ensures Quiet(SpawnStep(s, x)) == Quiet(SpawnStep(Quiet(s), x))
  {
    hide Waits;
  }

  lemma SameWait(s: State, x: Input)
    requires s.pc.WaitChild?
    ensures Quiet(SpawnStep(s, x)) == Quiet(SpawnStep(Quiet(s), x))
  {
    hide Freed;
  }

  lemma SameScan(s: State, x: Input)
    requires s.pc.SpawnScan?
    ensures Quiet(SpawnStep(s, x)) == Quiet(SpawnStep(Quiet(s), x))
  {
    hide SlotFor, SpawnTable, Starts;
    if x.cmd.Some? {
      PlainTable(s, Quiet(s), x.cmd.value, x.now);
    }
  }

  lemma QuietSingle(s: State, x: Input)
    requires Deaf(s) && InSingle(s.pc)
    ensures
      var r, q := SingleStep(s, x), SingleStep(Quiet(s), x);
      Plain(r) == Plain(q) || (Deaf(r) && Quiet(r) == Quiet(q))
  {
    hide EforkTable, ForkSlot, Freed, Demand, Chosen;
    if s.pc.SuWait? {
      QuietShell(s, x);
    }
  }

  lemma QuietShell(s: State, x: Input)
    requires s.pc.SuWait?
    ensures
      var r, q := SingleStep(s, x), SingleStep(Quiet(s), x);
      Plain(r) == Plain(q) || (Deaf(r) && Quiet(r) == Quiet(q))
  {
    hide Freed, Demand, Chosen;
  }

  lemma QuietLoop(s: State)
    requires Deaf(s) && !InRemove(s.pc) && !InSpawn(s.pc) && !InSingle(s.pc)
    ensures
      var r, q := LoopStep(s), LoopStep(Quiet(s));
      Plain(r) == Plain(q) || (Deaf(r) && Quiet(r) == Quiet(q))
  {
    hide Untouched, Demand, NewLevel, Decision;
  }

  lemma PlainEvent(s: State, e: Event)
    ensures Plain(Handle(s, e)) == Plain(Handle(Plain(s), e)) && Quiet(Handle(s, e)) == Quiet(Handle(Quiet(s), e))
    ensures Deaf(Handle(s, e)) == Deaf(s)
  {
    hide Died, Forgiven, OfPid;
  }

  lemma SameDeaf(s: State, r: State)
    requires Quiet(s) == Quiet(r)
    ensures Deaf(s) == Deaf(r)
  {
    assert s.pc == Quiet(s).pc && s.lv == Quiet(s).lv && s.modes == Quiet(s).modes;
    assert r.pc == Quiet(r).pc && r.lv == Quiet(r).lv && r.modes == Quiet(r).modes;
  }

  lemma PlainQuiet(s: State, r: State)
    requires Plain(s) == Plain(r)
    ensures Quiet(s) == Quiet(r)
  {
    assert Quiet(s) == Plain(s).(wake := Plain(s).wake.(powerhit := false));
    assert Quiet(r) == Plain(r).(wake := Plain(r).wake.(powerhit := false));
  }

  lemma StayAlike(s: State, r: State, a: Act)
    requires NearlyAlike(s, r)
    ensures NearlyAlike(After(s, a), After(r, a))
  {
    hide Handle, Proceed, Plain, Quiet, Deaf;
    match a
    case Got(e) =>
      PlainEvent(s, e);
      PlainEvent(r, e);
    case Do(x) =>
      PlainStep(s, x);
      PlainStep(r, x);
      if Plain(s) != Plain(r) {
        QuietAlike(s, r, x);
      }
  }

  lemma QuietAlike(s: State, r: State, x: Input)
    requires Deaf(s) && Quiet(s) == Quiet(r)
    ensures NearlyAlike(Proceed(s, x), Proceed(r, x))
  {
    hide Proceed, Plain, Quiet, Deaf;
    var a, b, q := Proceed(s, x), Proceed(r, x), Proceed(Quiet(s), x);
    SameDeaf(s, r);
    QuietStep(s, x);
    QuietStep(r, x);
    if Plain(a) == Plain(q) {
      PlainQuiet(a, q);
      SameDeaf(a, q);
    }
    if Plain(b) == Plain(q) {
      PlainQuiet(b, q);
      SameDeaf(b, q);
    }
    SameDeaf(a, b);
  }

  /**
   A power failure at a deaf moment is lost: whatever happens afterwards, the
   program does what it would have done without it, and as soon as it is not
   deaf any more nothing but history tells the difference.
   */
  lemma {:induction false} DeafnessLoses(s: State, acts: seq<Act>)
    requires Deaf(s)
    ensures
      var a, b := Run(s, acts), Run(Handle(s, PowerFail), acts);
      Quiet(a) == Quiet(b) && (!Deaf(a) ==> Plain(a) == Plain(b))
  {
    hide Deaf;
    RunAlike(s, Handle(s, PowerFail), acts);
    var a, b := Run(s, acts), Run(Handle(s, PowerFail), acts);
    if Plain(a) == Plain(b) {
      PlainQuiet(a, b);
    }
  }

  lemma {:induction false} RunAlike(s: State, r: State, acts: seq<Act>)
    requires NearlyAlike(s, r)
    ensures NearlyAlike(Run(s, acts), Run(r, acts))
    decreases |acts|
  {
    if |acts| > 0 {
      hide NearlyAlike, After;
      StayAlike(s, r, acts[0]);
      RunAlike(After(s, acts[0]), After(r, acts[0]), acts[1..]);
    }
  }

  // ----- slots that are never freed

  /** Slot k belongs to a process that has no id, may not be cleaned up, and is not waited for. */
  ghost predicate Leaked(s: State, k: nat) {
    && k < NPROC && s.table[k].id == "" && s.table[k].flags.occupied && s.table[k].flags.nocleanup
    && !s.table[k].flags.named
    && !((s.pc.Fork? || s.pc.NameIt? || s.pc.WaitChild? || s.pc.SuWait?) && s.pc.slot == k)
  }

  /** While the shell of single user mode is waited for, its slot has no id and may not be cleaned up. */
  ghost predicate ShellOk(s: State) {
    s.pc.SuWait? ==>
      var k := s.pc.slot;
      && k < NPROC && s.table[k].id == "" && s.table[k].flags.occupied && s.table[k].flags.nocleanup
      && !s.table[k].flags.named
  }

  lemma ShellKept(s: State, a: Act)
    requires ShellOk(s)
    ensures ShellOk(After(s, a))
  {
    hide Died, Forgiven, Demand, Chosen, RemoveStep, SpawnStep, LoopStep, Freed;
    match a
    case Got(e) =>
    case Do(x) => EntersSingle(s, x);
  }

  /** The shell is waited for only after it has been forked. */
  lemma EntersSingle(s: State, x: Input)
    ensures Proceed(s, x).pc.SuWait? ==> s.pc.SuFork? || s.pc.SuWait?
  {
    hide SpawnStep, LoopStep, RemoveEntry, RescanSlot, Lingering, EforkTable, Freed, Demand, Chosen, ForkSlot;
    if InSpawn(s.pc) {
      SpawnEntersNot(s, x);
    } else if !s.pc.SuWait? {
      LoopEntersNot(s);
    }
  }

  lemma SpawnEntersNot(s: State, x: Input)
    requires InSpawn(s.pc)
    ensures !SpawnStep(s, x).pc.SuWait?
  {
    hide SpawnTable, Starts, EforkTable, Freed, Waits;
  }

  lemma LoopEntersNot(s: State)
    requires !s.pc.SuWait?
    ensures !LoopStep(s).pc.SuWait?
  {
    hide Untouched, Demand, Chosen;
  }

  lemma {:induction false} ShellAlways(s: State, acts: seq<Act>)
    requires ShellOk(s)
    ensures ShellOk(Run(s, acts))
    decreases |acts|
  {
    if |acts| > 0 {
      hide ShellOk, After;
      ShellKept(s, acts[0]);
      ShellAlways(After(s, acts[0]), acts[1..]);
    }
  }

  /**
   In every run: the slot of the shell of single user mode is freed when the
   shell has died and the user is asked for a level; when a signal brings a
   numbered level the slot is left in use.
   */
  lemma SingleLeaks(s0: State, acts: seq<Act>, x: Input)
    requires Initial(s0) && Run(s0, acts).pc.SuWait?
    ensures
      var s := Run(s0, acts);
      var k, r := s.pc.slot, Proceed(s, x);
      && k < NPROC
      && (!s.table[k].flags.living ==> r.pc == SuAsk && !r.table[k].flags.occupied)
      && (s.table[k].flags.living && s.wake.usersignal && LVL0 <= s.lv.new_state <= LVL6 ==>
            r.pc == SuDone && r.lv.cur == s.lv.new_state && Leaked(r, k))
      && (s.table[k].flags.living && !(s.wake.usersignal && LVL0 <= s.lv.new_state <= LVL6) ==>
            r.pc == s.pc && r.table == s.table)
  {
    ShellAlways(s0, acts);
  }

  /** Every entry of inittab has an id. */
  predicate HasId(a: Act) {
    a.Do? && a.x.cmd.Some? ==> a.x.cmd.value.id != ""
  }

  ghost predicate Same(t: Table, r: Table, k: nat)
    requires k < NPROC
  {
    r[k].id == t[k].id && r[k].flags.occupied == t[k].flags.occupied && r[k].flags.nocleanup == t[k].flags.nocleanup
    && r[k].flags.named == t[k].flags.named
  }

  lemma EforkSame(t: Table, modes: Modes, pid: int, process: nat, k: nat)
    requires k < NPROC && k != process && t[k].flags.occupied && t[k].flags.nocleanup
    ensures Same(t, EforkTable(t, process, modes, pid), k) && ForkSlot(t, process) != k
  {
  }

  lemma LeakedKept(s: State, a: Act, k: nat)
    requires Leaked(s, k) && HasId(a)
    ensures Leaked(After(s, a), k)
  {
    hide Handle, RemoveStep, SpawnStep, SingleStep, LoopStep;
    match a
    case Got(e) => HandleLeaked(s, e, k);
    case Do(x) =>
      if InRemove(s.pc) {
        RemoveLeaked(s, x, k);
      } else if InSpawn(s.pc) {
        SpawnLeaked(s, x, k);
      } else if InSingle(s.pc) {
        SingleLeaked(s, x, k);
      } else {
        LoopLeaked(s, k);
      }
  }

  lemma HandleLeaked(s: State, e: Event, k: nat)
    requires Leaked(s, k)
    ensures Leaked(Handle(s, e), k)
  {
  }

  lemma KilledSame(t: Table, j: nat, pid: int, k: nat)
    requires k < NPROC && j < NPROC && t[k].flags.occupied && t[k].flags.nocleanup
    ensures Same(t, KilledBy(t, j, pid), k)
  {
    hide EforkTable;
    EforkSame(t, Modes(false, false, false), pid, NPROC, k);
  }

  lemma RemoveLeaked(s: State, x: Input, k: nat)
    requires Leaked(s, k) && HasId(Do(x)) && InRemove(s.pc)
    ensures Leaked(RemoveStep(s, x), k)
  {
    hide KilledBy, MustGo, Lingering;
    var t := s.table;
    if s.pc.RemoveScan? && x.cmd.Some? {
      var j := Found(t, x.cmd.value.id, 0);
      if j < NPROC {
        KilledSame(Flagged(t, j, t[j].flags.(touched := true)), j, x.pid, k);
      }
    } else if s.pc.RemoveRescan? && s.pc.k < NPROC {
      KilledSame(t, s.pc.k, x.pid, k);
    }
  }

  lemma SpawnTableSame(s: State, cmd: Cmd, now: int, k: nat)
    requires k < NPROC && s.table[k].flags.occupied && s.table[k].id == "" != cmd.id
    ensures Same(s.table, SpawnTable(s, cmd, now), k) && SlotFor(s.table, cmd.id) != k
  {
    hide Wanted, MayStart, Throttled;
  }

  lemma SpawnLeaked(s: State, x: Input, k: nat)
    requires Leaked(s, k) && HasId(Do(x)) && InSpawn(s.pc)
    ensures Leaked(SpawnStep(s, x), k)
  {
    hide SpawnTable, Starts, SlotFor, EforkTable, ForkModes, Waits;
    if s.pc.Fork? && s.pc.slot < NPROC {
      EforkSame(s.table, ForkModes(s, s.table[s.pc.slot].flags, s.pc.cmd.action), x.pid, s.pc.slot, k);
    } else if s.pc.SpawnScan? && x.cmd.Some? {
      SpawnTableSame(s, x.cmd.value, x.now, k);
    }
  }

  lemma SingleLeaked(s: State, x: Input, k: nat)
    requires Leaked(s, k) && InSingle(s.pc)
    ensures Leaked(SingleStep(s, x), k)
  {
    hide EforkTable, ForkSlot, Chosen, Demand;
    EforkSame(s.table, Modes(true, false, false), x.pid, NPROC, k);
  }

  lemma LoopLeaked(s: State, k: nat)
    requires Leaked(s, k) && !InRemove(s.pc) && !InSpawn(s.pc) && !InSingle(s.pc)
    ensures Leaked(LoopStep(s), k)
  {
    hide Chosen, Demand;
  }

  /** Such a slot is in use for ever after. */
  lemma {:induction false} LeakedForever(s: State, acts: seq<Act>, k: nat)
    requires Leaked(s, k) && forall a :: a in acts ==> HasId(a)
    ensures k < NPROC && Run(s, acts).table[k].flags.occupied && Run(s, acts).table[k].id == ""
    decreases |acts|
  {
    if |acts| > 0 {
      hide After, HasId;
      LeakedKept(s, acts[0], k);
      LeakedForever(After(s, acts[0]), acts[1..], k);
    }
  }

  // ----- from the start

  /**
   All of it together, from where main enters its loop: in every run with
   fresh process ids no id and no process has two slots, init does not pause
   at a demand level, and if no power failure came at a deaf moment none is
   left undone when init stays in its pause.
   */
  lemma EveryRun(s: State, acts: seq<Act>)
    requires Initial(s) && FreshPids(s, acts)
    ensures
      var r := Run(s, acts);
      && UniqueIds(r.table) && UniquePids(r.table) && (r.pc == Pause ==> !Demand(r.lv.cur))
      && (Heard(s, acts) && r.pc == Pause && Proceed(r, Input(None, 0, 0, 0)).pc == Pause ==>
           !r.ago.owed && !r.ago.serving)
  {
    hide TableOk, DemandOk, PowerOk, Heard, FreshPids, UniqueIds, UniquePids, Proceed, Demand;
    InitialOk(s);
    OneSlotPerId(s, acts);
    NoDemandAtPause(s, acts);
    if Heard(s, acts) {
      PowerFailuresHonoured(s, acts);
    }
  }

  /** The invariants hold when main enters its loop. */
  lemma InitialOk(s: State)
    requires Initial(s)
    ensures TableOk(s) && DemandOk(s) && PowerOk(s)
  {
  }
}
