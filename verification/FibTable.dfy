/**
  The forwarding table's entries, how they age, and what each operation on the two lists
  makes of table, times and lists: all of it on values, without the links.

  An entry put in by the controller is managed: pruning takes it out of the idle list but
  keeps it in the table, with its idle flag still set.  Such an entry is stranded.
*/
module FibTable {
  import opened Basics
  import opened FlowLinks

  // ----- entries and their ages -----

  const TICK_AGE_MAX := 0x4000_0000
  const FLOW_ACTIVE_TIMEOUT := 60_000_000
  const FLOW_IDLE_TIMEOUT := 120_000_000

  /** A table entry.  An expired one has an age that no longer fits its tick. */
  datatype Entry = Entry(flow: Flow, managed: bool, active: bool, idle: bool, tick: u32, expired: bool)
  {
    function Refresh(currentTick: u32): Entry { this.(tick := currentTick, expired := false) }

    function Activate(currentTick: u32): Entry { Refresh(currentTick).(active := true) }

    function Demote(currentTick: u32): Entry { Refresh(currentTick).(active := false, idle := true) }

    function Age(currentTick: u32): nat {
      var age := ComputeAge(currentTick, tick);
      if expired || age < 0 || age > TICK_AGE_MAX then TICK_AGE_MAX else age
    }

    /** The entry once its age has been asked for. */
    function Aged(currentTick: u32): Entry {
      var age := ComputeAge(currentTick, tick);
      this.(expired := expired || age < 0 || age > TICK_AGE_MAX)
    }
  }

  /** The age of a reference tick: the 32-bit difference read as a signed number. */
  function ComputeAge(currentTick: u32, referenceTick: u32): int { Signed32(Minus(currentTick, referenceTick)) }

  /** The signed age is the elapsed time exactly as long as that is below half the range
      (for times less than a whole wrap apart). */
  lemma SignedAgeIsElapsed(time: nat, reference: nat)
    requires reference <= time < reference + U32_RANGE
    ensures ComputeAge(Wrap32(time), Wrap32(reference)) == time - reference <==> time - reference < HALF_RANGE
  {
    AgeIsElapsed(time, reference);
  }

  /** The entry was last refreshed at the time kept under its key. */
  ghost predicate Stamped(e: Entry, times: Times, now: nat) {
    e.flow.key in times && e.tick == Wrap32(times[e.flow.key]) &&
    times[e.flow.key] + (if e.expired then TICK_AGE_MAX + 1 else 0) <= now
  }

  /** The age of an entry is the time since its last refresh, cut off at the maximum. */
  lemma AgeExactly(e: Entry, times: Times, now: nat)
    requires Stamped(e, times, now) && now < times[e.flow.key] + U32_RANGE
    ensures var elapsed := now - times[e.flow.key];
            && e.Age(Wrap32(now)) == (if elapsed > TICK_AGE_MAX then TICK_AGE_MAX else elapsed)
            && Stamped(e.Aged(Wrap32(now)), times, now)
  {
    AgeIsElapsed(now, times[e.flow.key]);
  }

  // ----- the table and the two lists -----

  type Table = map<int, Entry>

  /** The entries of `s` are in the table, with the flags of their list. */
  ghost predicate Members(table: Table, times: Times, now: nat, s: seq<Flow>, active: bool) {
    Freshest(s, times) &&
    forall i | 0 <= i < |s| ::
      s[i].key in table && table[s[i].key].flow == s[i] && Stamped(table[s[i].key], times, now) &&
      table[s[i].key].active == active && table[s[i].key].idle == !active
  }

  /** The active entries are in the active list; the idle ones are in the idle list, or
      stranded, which happens to managed entries only. */
  ghost predicate Flagged(table: Table, active: seq<Flow>, idle: seq<Flow>, strays: set<Flow>) {
    forall k | k in table ::
      table[k].flow.key == k && (table[k].active ==> table[k].flow in active) &&
      (table[k].idle && table[k].flow !in idle ==> table[k].flow in strays)
  }

  /** Every stranded flow has a managed entry with its idle flag set. */
  ghost predicate Unlisted(table: Table, idle: seq<Flow>, strays: set<Flow>) {
    forall f | f in strays ::
      f !in idle && f.key in table && table[f.key].flow == f && table[f.key].managed &&
      table[f.key].idle && !table[f.key].active
  }

  /** The table, if it agrees with the two lists. */
  ghost function Checked(table: Table, times: Times, now: nat, active: seq<Flow>, idle: seq<Flow>,
                         strays: set<Flow>): Option<Table> {
    if Members(table, times, now, active, true) && Members(table, times, now, idle, false) &&
       Flagged(table, active, idle, strays) && Unlisted(table, idle, strays) && Distinct(active) && Distinct(idle)
    then Some(table) else None
  }

  ghost predicate Agree(table: Table, times: Times, now: nat, active: seq<Flow>, idle: seq<Flow>, strays: set<Flow>) {
    Checked(table, times, now, active, idle, strays).Some?
  }

  /** A stale idle entry leaves the table, unless it is managed. */
  function Pruned(table: Table, key: int, tick: u32): Table
    requires key in table
  {
    if table[key].managed then table[key := table[key].Aged(tick)] else map k | k in table && k != key :: table[k]
  }

  lemma MembersWithout(table: Table, times: Times, now: nat, s: seq<Flow>, active: bool, x: Flow)
    requires Members(table, times, now, s, active) && Distinct(s) && x in s
    ensures Members(table, times, now, Without(s, x), active)
    ensures forall i | 0 <= i < |Without(s, x)| :: Without(s, x)[i].key != x.key
  {
    WithoutMembers(s, x);
    FreshestWithout(s, x, times);
    var t := Without(s, x);
    forall i | 0 <= i < |t|
      ensures t[i].key in table && table[t[i].key].flow == t[i] && Stamped(table[t[i].key], times, now)
      ensures table[t[i].key].active == active && table[t[i].key].idle == !active && t[i].key != x.key
    {
      var j :| 0 <= j < |s| && s[j] == t[i];
    }
  }

  /** Members stay members when an entry that is not among them changes. */
  lemma MembersFrame(table: Table, times: Times, now: nat, s: seq<Flow>, active: bool, after: Table, at: Times,
                     then_: nat, key: int)
    requires Members(table, times, now, s, active) && now <= then_
    requires forall i | 0 <= i < |s| :: s[i].key != key
    requires forall k | k in table && k != key :: k in after && after[k] == table[k]
    requires forall k | k in times && k != key :: k in at && at[k] == times[k]
    ensures Members(after, at, then_, s, active)
  {
  }

  /** An entry refreshed now goes in front. */
  lemma MembersInFront(table: Table, times: Times, now: nat, s: seq<Flow>, active: bool, e: Entry)
    requires Members(table, times, now, s, active) && e.flow.key in table && table[e.flow.key] == e
    requires Stamped(e, times, now) && times[e.flow.key] == now && e.active == active && e.idle == !active
    ensures Members(table, times, now, [e.flow] + s, active)
  {
    var u := [e.flow] + s;
    assert forall i | 1 <= i < |u| :: u[i] == s[i - 1];
  }

  /** What becomes of the table when an active entry is refreshed. */
  lemma AgreeRefreshed(table: Table, times: Times, now: nat, active: seq<Flow>, idle: seq<Flow>, strays: set<Flow>,
                       key: int, time: nat)
    requires Agree(table, times, now, active, idle, strays) && now <= time
    requires key in table && table[key].active
    ensures var e := table[key];
            Agree(table[key := e.Refresh(Wrap32(time))], times[key := time], time,
                  [e.flow] + Without(active, e.flow), idle, strays)
  {
    var e := table[key];
    var after, at := table[key := e.Refresh(Wrap32(time))], times[key := time];
    MembersWithout(table, times, now, active, true, e.flow);
    WithoutMembers(active, e.flow);
    MembersFrame(table, times, now, Without(active, e.flow), true, after, at, time, key);
    MembersInFront(after, at, time, Without(active, e.flow), true, after[key]);
    MembersFrame(table, times, now, idle, false, after, at, time, key);
    FlagsInFront(table, active, idle, strays, after, key);
  }

  lemma FlagsInFront(table: Table, active: seq<Flow>, idle: seq<Flow>, strays: set<Flow>, after: Table, key: int)
    requires Flagged(table, active, idle, strays) && Distinct(active) && key in table
    requires after.Keys == table.Keys && after[key].flow == table[key].flow && !after[key].idle
    requires forall k | k in table && k != key :: after[k] == table[k]
    ensures Flagged(after, [table[key].flow] + Without(active, table[key].flow), idle, strays)
  {
    var x := table[key].flow;
    if x in active { WithoutMembers(active, x); }
    forall k | k in after && after[k].active && k != key
      ensures after[k].flow in Without(active, x)
    {
      var i :| 0 <= i < |active| && active[i] == after[k].flow;
    }
  }

  /** ... when an entry in neither list is activated, ... */
  lemma AgreeActivated(table: Table, times: Times, now: nat, active: seq<Flow>, idle: seq<Flow>, strays: set<Flow>,
                       key: int, time: nat)
    requires Agree(table, times, now, active, idle, strays) && now <= time
    requires key in table && !table[key].active && !table[key].idle
    ensures var e := table[key];
            Agree(table[key := e.Activate(Wrap32(time))], times[key := time], time, [e.flow] + active, idle, strays)
  {
    var e := table[key];
    var after, at := table[key := e.Activate(Wrap32(time))], times[key := time];
    MembersFrame(table, times, now, active, true, after, at, time, key);
    MembersInFront(after, at, time, active, true, after[key]);
    MembersFrame(table, times, now, idle, false, after, at, time, key);
    assert e.flow !in active;
    FlagsInFront(table, active, idle, strays, after, key);
  }

  /** ... when an idle entry is about to be activated, ... */
  lemma AgreeTaken(table: Table, times: Times, now: nat, active: seq<Flow>, idle: seq<Flow>, strays: set<Flow>,
                   key: int)
    requires Agree(table, times, now, active, idle, strays)
    requires key in table && table[key].idle && table[key].flow in idle && table[key].flow !in strays
    ensures var e := table[key];
            Agree(table[key := e.(idle := false)], times, now, active, Without(idle, e.flow), strays)
  {
    var e := table[key];
    MembersWithout(table, times, now, idle, false, e.flow);
    MembersFrame(table, times, now, Without(idle, e.flow), false, table[key := e.(idle := false)], times, now, key);
    MembersFrame(table, times, now, active, true, table[key := e.(idle := false)], times, now, key);
    FlagsTaken(table, active, idle, strays, table[key := e.(idle := false)], strays, key);
  }

  lemma FlagsTaken(table: Table, active: seq<Flow>, idle: seq<Flow>, strays: set<Flow>, after: Table, left: set<Flow>,
                   key: int)
    requires Flagged(table, active, idle, strays) && Distinct(idle) && key in table && table[key].flow in idle
    requires strays <= left && forall k | k in after :: k in table && (k != key ==> after[k] == table[k])
    requires key in after ==> after[key].flow == table[key].flow && !after[key].active
    requires key in after && after[key].idle ==> after[key].flow in left
    ensures Flagged(after, active, Without(idle, table[key].flow), left)
  {
    var x := table[key].flow;
    WithoutMembers(idle, x);
    forall k | k in after && k != key && after[k].flow in idle
      ensures after[k].flow in Without(idle, x)
    {
      var i :| 0 <= i < |idle| && idle[i] == after[k].flow;
    }
  }

  /** ... when an active entry is demoted, ... */
  lemma AgreeDemoted(table: Table, times: Times, now: nat, active: seq<Flow>, idle: seq<Flow>, strays: set<Flow>,
                     key: int, time: nat)
    requires Agree(table, times, now, active, idle, strays) && now <= time
    requires key in table && table[key].active
    ensures var e := table[key];
            Agree(table[key := e.Demote(Wrap32(time))], times[key := time], time,
                  Without(active, e.flow), [e.flow] + idle, strays)
  {
    var e := table[key];
    var after, at := table[key := e.Demote(Wrap32(time))], times[key := time];
    MembersWithout(table, times, now, active, true, e.flow);
    WithoutMembers(active, e.flow);
    MembersFrame(table, times, now, Without(active, e.flow), true, after, at, time, key);
    MembersFrame(table, times, now, idle, false, after, at, time, key);
    MembersInFront(after, at, time, idle, false, after[key]);
    forall k | k in after && k != key && after[k].active
      ensures after[k].flow in Without(active, e.flow)
    {
      var i :| 0 <= i < |active| && active[i] == after[k].flow;
    }
  }

  /** ... and when pruning takes an idle entry out of the list. */
  lemma AgreeDropped(table: Table, times: Times, now: nat, active: seq<Flow>, idle: seq<Flow>, strays: set<Flow>,
                     key: int, tick: u32)
    requires Agree(table, times, now, active, idle, strays)
    requires key in table && table[key].flow in idle && table[key].flow !in strays
    ensures var e := table[key];
            Agree(Pruned(table, key, tick), times, now, active, Without(idle, e.flow),
                  if e.managed then strays + {e.flow} else strays)
  {
    var x, after := table[key].flow, Pruned(table, key, tick);
    var left := if table[key].managed then strays + {x} else strays;
    assert x.key == key && table[key].idle && !table[key].active;
    MembersWithout(table, times, now, idle, false, x);
    MembersFrame(table, times, now, Without(idle, x), false, after, times, now, key);
    MembersFrame(table, times, now, active, true, after, times, now, key);
    FlagsTaken(table, active, idle, strays, after, left, key);
  }

  // ----- what pruning does to the table -----

  /** The table with the entries of `s` demoted. */
  ghost function DemotedAll(table: Table, s: seq<Flow>, tick: u32): Table {
    map k | k in table :: if table[k].flow in s then table[k].Demote(tick) else table[k]
  }

  /** The table with the entries of `s` gone, or aged only if they are managed. */
  ghost function PrunedAll(table: Table, s: seq<Flow>, tick: u32): Table {
    map k | k in table && (table[k].flow in s ==> table[k].managed) ::
      if table[k].flow in s then table[k].Aged(tick) else table[k]
  }

  ghost function ManagedIn(table: Table, s: seq<Flow>): set<Flow> {
    set f | f in s && f.key in table && table[f.key].managed
  }

  lemma OneMoreDemoted(table: Table, s: seq<Flow>, key: int, tick: u32)
    requires key in table && table[key].flow !in s && forall k | k in table :: table[k].flow.key == k
    ensures DemotedAll(table, s, tick)[key := DemotedAll(table, s, tick)[key].Demote(tick)] ==
            DemotedAll(table, [table[key].flow] + s, tick)
  {
    var x := table[key].flow;
    assert forall k | k in table :: table[k].flow in [x] + s <==> k == key || table[k].flow in s;
  }

  lemma OneMorePruned(table: Table, s: seq<Flow>, key: int, tick: u32)
    requires key in table && table[key].flow !in s && forall k | k in table :: table[k].flow.key == k
    ensures key in PrunedAll(table, s, tick)
    ensures Pruned(PrunedAll(table, s, tick), key, tick) == PrunedAll(table, [table[key].flow] + s, tick)
    ensures ManagedIn(table, [table[key].flow] + s) ==
            ManagedIn(table, s) + if table[key].managed then {table[key].flow} else {}
  {
    var x := table[key].flow;
    assert forall k | k in table :: table[k].flow in [x] + s <==> k == key || table[k].flow in s;
    assert forall f: Flow :: f in [x] + s <==> f == x || f in s;
  }

  /** No entry of `s` was last refreshed a whole wrap ago. */
  ghost predicate InReach(s: seq<Flow>, times: Times, now: nat) {
    forall i | 0 <= i < |s| :: now < TimeOf(times, s[i]) + U32_RANGE
  }

  /** Scanning from the tail up to the first entry younger than `timeout` finds exactly those
      that are not. */
  ghost predicate CutAt(s: seq<Flow>, times: Times, now: nat, timeout: nat, k: nat) {
    k <= |s| && forall i | 0 <= i < |s| :: now - TimeOf(times, s[i]) >= timeout <==> i >= k
  }

  lemma AgreeLater(table: Table, times: Times, now: nat, active: seq<Flow>, idle: seq<Flow>, strays: set<Flow>,
                   time: nat)
    requires Agree(table, times, now, active, idle, strays) && now <= time
    ensures Agree(table, times, time, active, idle, strays)
  {
  }

  /** No two flows of the lists have the same key. */
  ghost predicate KeysApart(active: seq<Flow>, idle: seq<Flow>) {
    (forall i, j | 0 <= i < j < |active| :: active[i].key != active[j].key) &&
    forall i, j | 0 <= i < |active| && 0 <= j < |idle| :: active[i].key != idle[j].key
  }

  lemma AgreeKeys(table: Table, times: Times, now: nat, active: seq<Flow>, idle: seq<Flow>, strays: set<Flow>)
    requires Agree(table, times, now, active, idle, strays)
    ensures KeysApart(active, idle) && Freshest(active, times) && Freshest(idle, times)
    ensures forall k | k in table :: table[k].flow.key == k
  {
  }

  /** Where pruning the active list has got to: the entries from `k` on are demoted. */
  ghost predicate DemotedFrom(times: Times, at: Times, now: nat, active: seq<Flow>, idle: seq<Flow>, k: nat) {
    k <= |active| &&
    (forall i | 0 <= i < k :: TimeOf(at, active[i]) == TimeOf(times, active[i])) &&
    (forall i | k <= i < |active| ::
       TimeOf(at, active[i]) == now && now - TimeOf(times, active[i]) >= FLOW_ACTIVE_TIMEOUT) &&
    forall i | 0 <= i < |idle| :: TimeOf(at, idle[i]) == TimeOf(times, idle[i])
  }

  lemma CutBefore(s: seq<Flow>, k: nat)
    requires Distinct(s) && 0 < k <= |s|
    ensures s[k - 1..] == [s[k - 1]] + s[k..] && s[..k][..k - 1] == s[..k - 1] && s[k - 1] !in s[k..]
  {
  }

  /** What pruning the active list has made of table and lists, once the entries from `k` on
      are demoted. */
  datatype Made = Made(table: Table, times: Times, active: seq<Flow>, idle: seq<Flow>)
  {
    ghost predicate From(was: Made, now: nat, tick: u32, k: nat) {
      DemotedFrom(was.times, times, now, was.active, was.idle, k) &&
      active == was.active[..k] && idle == was.active[k..] + was.idle &&
      table == DemotedAll(was.table, was.active[k..], tick)
    }

    /** How far pruning has got from `was`, if that was in order. */
    ghost function Progress(was: Made, strays: set<Flow>, now: nat, tick: u32, k: nat): Option<nat> {
      if From(was, now, tick, k) && Agree(was.table, was.times, now, was.active, was.idle, strays) &&
         InReach(was.active, was.times, now) && InReach(was.idle, was.times, now)
      then Some(k) else None
    }

    /** The active list is pruned. */
    ghost function Halfway(was: Made, strays: set<Flow>, now: nat, tick: u32): Option<nat> {
      if CutAt(was.active, was.times, now, FLOW_ACTIVE_TIMEOUT, |active|)
      then Progress(was, strays, now, tick, |active|)
      else None
    }
  }

  lemma DemotedStep(times: Times, at: Times, now: nat, active: seq<Flow>, idle: seq<Flow>, k: nat)
    requires DemotedFrom(times, at, now, active, idle, k) && KeysApart(active, idle) && k > 0
    requires now - TimeOf(times, active[k - 1]) >= FLOW_ACTIVE_TIMEOUT
    ensures DemotedFrom(times, at[active[k - 1].key := now], now, active, idle, k - 1)
  {
  }

  /** The step from `k` to `k - 1`. */
  lemma MadeStep(was: Made, m: Made, strays: set<Flow>, now: nat, k: nat, tick: u32)
    requires m.Progress(was, strays, now, tick, k).Some? && k > 0
    requires now - TimeOf(m.times, was.active[k - 1]) >= FLOW_ACTIVE_TIMEOUT
    ensures var f := was.active[k - 1];
            && f.key in m.table
            && Made(m.table[f.key := m.table[f.key].Demote(tick)], m.times[f.key := now], Without(m.active, f),
                    [f] + m.idle)
               .Progress(was, strays, now, tick, k - 1).Some?
  {
    AgreeKeys(was.table, was.times, now, was.active, was.idle, strays);
    var f := was.active[k - 1];
    CutBefore(was.active, k);
    WithoutLast(m.active);
    DemotedStep(was.times, m.times, now, was.active, was.idle, k);
    assert was.active[k - 1..] + was.idle == [f] + (was.active[k..] + was.idle);
    OneMoreDemoted(was.table, was.active[k..], f.key, tick);
  }

  lemma MadeSofar(was: Made, m: Made, strays: set<Flow>, now: nat, k: nat, tick: u32)
    requires m.Progress(was, strays, now, tick, k).Some?
    ensures |m.active| == k <= |was.active| && (k > 0 ==> m.active[k - 1] == was.active[k - 1])
    ensures InReach(m.active, m.times, now) && InReach(m.idle, m.times, now)
    ensures forall i | 0 <= i < |m.active| :: m.active[i] in was.active
    ensures forall i | 0 <= i < |m.idle| :: m.idle[i] in was.active || m.idle[i] in was.idle
  {
  }

  /** Done when the entry at the tail is fresh. */
  lemma MadeWhole(was: Made, m: Made, strays: set<Flow>, now: nat, k: nat, tick: u32)
    requires m.Progress(was, strays, now, tick, k).Some?
    requires k > 0 ==> now - TimeOf(m.times, was.active[k - 1]) < FLOW_ACTIVE_TIMEOUT
    ensures CutAt(was.active, was.times, now, FLOW_ACTIVE_TIMEOUT, k)
  {
    AgreeKeys(was.table, was.times, now, was.active, was.idle, strays);
    CutFound(was.active, was.times, now, FLOW_ACTIVE_TIMEOUT, k);
  }

  /** What pruning the idle list has made of table, list and stranded flows, once the entries
      from `m` on are out. */
  datatype Left = Left(table: Table, idle: seq<Flow>, strays: set<Flow>)
  {
    ghost predicate From(was: Left, times: Times, now: nat, tick: u32, m: nat) {
      m <= |was.idle| && idle == was.idle[..m] && table == PrunedAll(was.table, was.idle[m..], tick) &&
      strays == was.strays + ManagedIn(was.table, was.idle[m..]) &&
      forall i | m <= i < |was.idle| :: now - TimeOf(times, was.idle[i]) >= FLOW_IDLE_TIMEOUT
    }

    ghost function Progress(was: Left, active: seq<Flow>, times: Times, now: nat, tick: u32, m: nat): Option<nat> {
      if From(was, times, now, tick, m) && Agree(was.table, times, now, active, was.idle, was.strays) &&
         InReach(was.idle, times, now)
      then Some(m) else None
    }
  }

  lemma OneMoreStray(s: set<Flow>, t: set<Flow>, f: Flow)
    ensures s + (t + {f}) == s + t + {f} && s + (t + {}) == s + t
  {
  }

  /** The step from `m` to `m - 1`. */
  lemma LeftStep(was: Left, l: Left, active: seq<Flow>, times: Times, now: nat, m: nat, tick: u32)
    requires l.Progress(was, active, times, now, tick, m).Some? && m > 0
    requires now - TimeOf(times, was.idle[m - 1]) >= FLOW_IDLE_TIMEOUT
    ensures var f := was.idle[m - 1];
            && f.key in l.table
            && Left(Pruned(l.table, f.key, tick), Without(l.idle, f),
                    if l.table[f.key].managed then l.strays + {f} else l.strays)
               .Progress(was, active, times, now, tick, m - 1).Some?
  {
    AgreeKeys(was.table, times, now, active, was.idle, was.strays);
    var f := was.idle[m - 1];
    CutBefore(was.idle, m);
    WithoutLast(l.idle);
    OneMorePruned(was.table, was.idle[m..], f.key, tick);
    OneMoreStray(was.strays, ManagedIn(was.table, was.idle[m..]), f);
  }

  lemma LeftSofar(was: Left, l: Left, active: seq<Flow>, times: Times, now: nat, m: nat, tick: u32)
    requires l.Progress(was, active, times, now, tick, m).Some?
    ensures |l.idle| == m <= |was.idle| && (m > 0 ==> l.idle[m - 1] == was.idle[m - 1])
    ensures InReach(l.idle, times, now)
    ensures forall i | 0 <= i < |l.idle| :: l.idle[i] in was.idle
  {
  }

  lemma LeftStarts(was: Left, active: seq<Flow>, times: Times, now: nat, tick: u32)
    requires Agree(was.table, times, now, active, was.idle, was.strays) && InReach(was.idle, times, now)
    ensures was.Progress(was, active, times, now, tick, |was.idle|).Some?
  {
    assert was.idle[|was.idle|..] == [];
    assert ManagedIn(was.table, []) == {} && PrunedAll(was.table, [], tick) == was.table;
  }

  lemma LeftWhole(was: Left, l: Left, active: seq<Flow>, times: Times, now: nat, m: nat, tick: u32)
    requires l.Progress(was, active, times, now, tick, m).Some?
    requires m > 0 ==> now - TimeOf(times, was.idle[m - 1]) < FLOW_IDLE_TIMEOUT
    ensures CutAt(was.idle, times, now, FLOW_IDLE_TIMEOUT, m)
  {
    AgreeKeys(was.table, times, now, active, was.idle, was.strays);
    CutFound(was.idle, times, now, FLOW_IDLE_TIMEOUT, m);
  }

  lemma CutOfOne(s: seq<Flow>, times: Times, now: nat, timeout: nat, k: nat)
    requires CutAt(s, times, now, timeout, k) && |s| == 1 && now - TimeOf(times, s[0]) >= timeout
    ensures s[..k] == [] && s[k..] == s
  {
  }

  /** If the entry in front of the cut is fresh, so are all before it. */
  lemma CutFound(s: seq<Flow>, times: Times, now: nat, timeout: nat, k: nat)
    requires Freshest(s, times) && k <= |s| && forall i | k <= i < |s| :: now - TimeOf(times, s[i]) >= timeout
    requires k > 0 ==> now - TimeOf(times, s[k - 1]) < timeout
    ensures CutAt(s, times, now, timeout, k)
  {
  }

  /** Entries just demoted are not stale, so a cut comes after them. */
  lemma CutBehind(s: seq<Flow>, u: seq<Flow>, times: Times, at: Times, now: nat, timeout: nat, cut: nat)
    requires CutAt(s + u, at, now, timeout, cut) && timeout > 0
    requires forall i | 0 <= i < |s| :: TimeOf(at, s[i]) == now
    requires forall i | 0 <= i < |u| :: TimeOf(at, u[i]) == TimeOf(times, u[i])
    ensures |s| <= cut && CutAt(u, times, now, timeout, cut - |s|)
    ensures (s + u)[..cut] == s + u[..cut - |s|] && (s + u)[cut..] == u[cut - |s|..]
  {
    if s != [] {
      assert (s + u)[|s| - 1] == s[|s| - 1];
    }
    assert forall i | 0 <= i < |u| :: u[i] == (s + u)[|s| + i];
  }

  /** What pruning makes of `was`: the active list cut at `k`, the idle one at `m`. */
  ghost predicate Results(was: Made, strays: set<Flow>, end: Left, active: seq<Flow>, at: Times, now: nat, tick: u32,
                          k: nat, m: nat) {
    DemotedFrom(was.times, at, now, was.active, was.idle, k) &&
    CutAt(was.active, was.times, now, FLOW_ACTIVE_TIMEOUT, k) &&
    CutAt(was.idle, was.times, now, FLOW_IDLE_TIMEOUT, m) &&
    active == was.active[..k] && end.idle == was.active[k..] + was.idle[..m] &&
    end.table == PrunedAll(DemotedAll(was.table, was.active[k..], tick), was.idle[m..], tick) &&
    end.strays == strays + ManagedIn(was.table, was.idle[m..])
  }

  ghost function Outcome(was: Made, strays: set<Flow>, end: Left, active: seq<Flow>, at: Times, now: nat, tick: u32,
                         k: nat, m: nat): Option<nat> {
    if Results(was, strays, end, active, at, now, tick, k, m) then Some(k) else None
  }

  lemma BothCut(was: Made, mid: Made, strays: set<Flow>, end: Left, now: nat, tick: u32, k: nat, cut: nat)
    returns (m: nat)
    requires mid.Progress(was, strays, now, tick, k).Some?
    requires CutAt(was.active, was.times, now, FLOW_ACTIVE_TIMEOUT, k) &&
             CutAt(mid.idle, mid.times, now, FLOW_IDLE_TIMEOUT, cut)
    requires end.Progress(Left(mid.table, mid.idle, strays), mid.active, mid.times, now, tick, cut).Some?
    ensures Outcome(was, strays, end, mid.active, mid.times, now, tick, k, m).Some?
  {
    CutBehind(was.active[k..], was.idle, was.times, mid.times, now, FLOW_IDLE_TIMEOUT, cut);
    m := cut - |was.active[k..]|;
    ManagedStay(was.table, was.active[k..], tick, was.idle[m..]);
  }

  lemma ResultMembers(a: seq<Flow>, b: seq<Flow>, k: nat, m: nat)
    requires k <= |a| && m <= |b|
    ensures forall i | 0 <= i < |a[..k]| :: a[..k][i] in a
    ensures var s := a[k..] + b[..m]; forall i | 0 <= i < |s| :: s[i] in a || s[i] in b
  {
  }

  /** The active entries that were stale at `now` are demoted and the idle ones that were not
      are as before, none of them that under `key`. */
  ghost predicate StillIdle(table: Table, after: Table, times: Times, now: nat, active: seq<Flow>, idle: seq<Flow>,
                            tick: u32, key: int) {
    (forall i | 0 <= i < |active| && now - TimeOf(times, active[i]) >= FLOW_ACTIVE_TIMEOUT ::
       active[i].key != key && active[i].key in table && active[i].key in after &&
       after[active[i].key] == table[active[i].key].Demote(tick)) &&
    forall i | 0 <= i < |idle| && now - TimeOf(times, idle[i]) < FLOW_IDLE_TIMEOUT ::
      idle[i].key != key && idle[i].key in table && table[idle[i].key].idle && idle[i].key in after &&
      after[idle[i].key] == table[idle[i].key]
  }

  lemma StillIdleBesides(table: Table, after: Table, times: Times, now: nat, active: seq<Flow>, idle: seq<Flow>,
                         tick: u32, key: int, e: Entry)
    requires StillIdle(table, after, times, now, active, idle, tick, key)
    ensures StillIdle(table, after[key := e], times, now, active, idle, tick, key)
  {
  }

  /** Pruning strands a managed entry that is idle and stale, and demotes the stale active
      ones. */
  lemma StrandedByPruning(table: Table, times: Times, then_: nat, now: nat, a: seq<Flow>, b: seq<Flow>,
                          strays: set<Flow>, tick: u32, k: nat, m: nat, key: int)
    requires Agree(table, times, then_, a, b, strays) && key in table && table[key].managed && table[key].flow in b
    requires CutAt(a, times, now, FLOW_ACTIVE_TIMEOUT, k) && CutAt(b, times, now, FLOW_IDLE_TIMEOUT, m)
    requires now - TimeOf(times, table[key].flow) >= FLOW_IDLE_TIMEOUT
    ensures var after := PrunedAll(DemotedAll(table, a[k..], tick), b[m..], tick);
            && table[key].flow in ManagedIn(table, b[m..])
            && key in after && after[key].flow == table[key].flow && !after[key].active
            && StillIdle(table, after, times, now, a, b, tick, key)
  {
    var f := table[key].flow;
    var j :| 0 <= j < |b| && b[j] == f;
    assert f == b[m..][j - m];
    forall i | k <= i < |a|
      ensures a[i] in a[k..] && a[i] !in b
    {
      assert a[i] == a[k..][i - k];
      assert !table[a[i].key].idle;
    }
    forall i | 0 <= i < m
      ensures b[i] !in a[k..] && b[i] !in b[m..]
    {
      assert table[b[i].key].idle;
    }
  }

  lemma ManagedStay(table: Table, s: seq<Flow>, tick: u32, t: seq<Flow>)
    ensures ManagedIn(DemotedAll(table, s, tick), t) == ManagedIn(table, t)
  {
  }

  /** None of the entries from `m` on is managed. */
  ghost predicate NoStaleManaged(table: Table, idle: seq<Flow>, m: nat) {
    forall i | m <= i < |idle| && idle[i].key in table :: !table[idle[i].key].managed
  }

  lemma NoneManaged(table: Table, idle: seq<Flow>)
    ensures forall m: nat | m <= |idle| :: ManagedIn(table, idle[m..]) == {} <==> NoStaleManaged(table, idle, m)
  {
    forall m: nat | m <= |idle|
      ensures ManagedIn(table, idle[m..]) == {} <==> NoStaleManaged(table, idle, m)
    {
      if i :| m <= i < |idle| && idle[i].key in table && table[idle[i].key].managed {
        assert idle[m..][i - m] == idle[i];
        assert idle[i] in ManagedIn(table, idle[m..]);
      }
    }
  }

  lemma WithoutLast(s: seq<Flow>)
    requires s != [] && Distinct(s)
    ensures Without(s, s[|s| - 1]) == s[..|s| - 1]
  {
    WithoutAt(s, |s| - 1);
  }
}
