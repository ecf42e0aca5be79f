/** The journal-mode lock ladder: any number of processes, interleaving single byte-range lock calls. */
module Locks {
  import opened Bytes

  datatype Level = Unlocked | Shared | Reserved | Pending | Exclusive
  datatype Range = PendingByte | ReservedByte | SharedBytes
  datatype Held = Free | Reading | Writing

  function Height(l: Level): (n: nat) {
    match l
    case Unlocked => 0
    case Shared => 1
    case Reserved => 2
    case Pending => 3
    case Exclusive => 4
  }

  /** What one process holds, range by range. */
  datatype Locks = Locks(pending: Held, reserved: Held, shared: Held)

  function On(h: Locks, r: Range): (k: Held) {
    match r
    case PendingByte => h.pending
    case ReservedByte => h.reserved
    case SharedBytes => h.shared
  }

  function Set(h: Locks, r: Range, k: Held): (h': Locks)
    ensures On(h', r) == k && forall q :: q != r ==> On(h', q) == On(h, q)
  {
    match r
    case PendingByte => h.(pending := k)
    case ReservedByte => h.(reserved := k)
    case SharedBytes => h.(shared := k)
  }

  predicate Clash(a: Held, b: Held) { (a == Writing && b != Free) || (b == Writing && a != Free) }

  /** Where a process is between two lock calls. Taking the shared lock is three calls: a probe of the
      pending byte, its release, and the shared range itself. */
  datatype Spot = Resting | Probing | Probed

  datatype Proc = Proc(level: Level, spot: Spot, held: Locks)

  const NOTHING := Locks(Free, Free, Free)

  /** The ranges a ladder level stands for. */
  function RangesOf(l: Level): (h: Locks) {
    match l
    case Unlocked => NOTHING
    case Shared => Locks(Free, Free, Reading)
    case Reserved => Locks(Free, Writing, Reading)
    case Pending => Locks(Writing, Writing, Reading)
    case Exclusive => Locks(Writing, Writing, Writing)
  }

  ghost predicate Fits(p: Proc) {
    && p.held == (if p.spot == Probing then Locks(Reading, Free, Free) else RangesOf(p.level))
    && (p.spot != Resting ==> p.level == Unlocked)
  }

  // ----- one call -----

  datatype Direction = Up | Down

  /** The call a process makes next: which range, and what it asks for. */
  function NextCall(p: Proc, d: Direction): (r: Option<(Range, Held)>) {
    match p.spot
    case Probing => Some((PendingByte, Free))
    case Probed => Some((SharedBytes, Reading))
    case Resting =>
      match d
      case Up =>
        (match p.level
         case Unlocked => Some((PendingByte, Reading))
         case Shared => Some((ReservedByte, Writing))
         case Reserved => Some((PendingByte, Writing))
         case Pending => Some((SharedBytes, Writing))
         case Exclusive => None)
      case Down =>
        (match p.level
         case Exclusive => Some((SharedBytes, Reading))
         case Pending => Some((PendingByte, Free))
         case Reserved => Some((ReservedByte, Free))
         case Shared => Some((SharedBytes, Free))
         case Unlocked => None)
  }

  /** Where a granted call takes the process. */
  function Granted(p: Proc, d: Direction): (q: Proc)
    requires NextCall(p, d).Some?
  {
    var held := Set(p.held, NextCall(p, d).value.0, NextCall(p, d).value.1);
    match p.spot
    case Probing => Proc(Unlocked, Probed, held)
    case Probed => Proc(Shared, Resting, held)
    case Resting =>
      match d
      case Up =>
        (match p.level
         case Unlocked => Proc(Unlocked, Probing, held)
         case Shared => Proc(Reserved, Resting, held)
         case Reserved => Proc(Pending, Resting, held)
         case Pending => Proc(Exclusive, Resting, held)
         case Exclusive => p)
      case Down =>
        (match p.level
         case Exclusive => Proc(Pending, Resting, held)
         case Pending => Proc(Reserved, Resting, held)
         case Reserved => Proc(Shared, Resting, held)
         case Shared => Proc(Unlocked, Resting, held)
         case Unlocked => p)
  }

  /** A refused call gives up the climb where it stands. */
  function Refused(p: Proc): (q: Proc) { p.(spot := Resting) }

  /** A call is granted when no other process holds the range in conflict. */
  ghost predicate Grants(procs: seq<Proc>, i: nat, r: Range, k: Held) {
    forall j :: 0 <= j < |procs| && j != i ==> !Clash(k, On(procs[j].held, r))
  }

  ghost predicate CallOf(procs: seq<Proc>, i: nat, d: Direction, procs': seq<Proc>)
    requires i < |procs|
  {
    NextCall(procs[i], d).Some? &&
    var call := NextCall(procs[i], d).value;
    procs' == procs[i := if Grants(procs, i, call.0, call.1) then Granted(procs[i], d) else Refused(procs[i])]
  }

  // ----- what every call keeps -----

  ghost predicate Compatible(procs: seq<Proc>) {
    forall i, j, r: Range :: 0 <= i < j < |procs| ==> !Clash(On(procs[i].held, r), On(procs[j].held, r))
  }

  ghost predicate Sane(procs: seq<Proc>) { (forall i :: 0 <= i < |procs| ==> Fits(procs[i])) && Compatible(procs) }

  lemma GrantedFits(p: Proc, d: Direction)
    requires Fits(p) && NextCall(p, d).Some?
    ensures Fits(Granted(p, d)) && (p.spot != Probing ==> Fits(Refused(p)))
  {
  }

  lemma CallKeeps(procs: seq<Proc>, i: nat, d: Direction, procs': seq<Proc>)
    requires Sane(procs) && i < |procs| && CallOf(procs, i, d, procs')
    ensures Sane(procs')
  {
    var p := procs[i];
    var call := NextCall(p, d).value;
    GrantedFits(p, d);
    if !Grants(procs, i, call.0, call.1) { ReleaseGranted(procs, i, p, d); }
    forall a, b, r: Range | 0 <= a < b < |procs'| ensures !Clash(On(procs'[a].held, r), On(procs'[b].held, r)) {
      assert !Clash(On(procs[a].held, r), On(procs[b].held, r));
    }
  }

  /** Only an acquisition can be refused, so a refusal never strands the probe of the pending byte. */
  lemma ReleaseGranted(procs: seq<Proc>, i: nat, p: Proc, d: Direction)
    requires NextCall(p, d).Some? && !Grants(procs, i, NextCall(p, d).value.0, NextCall(p, d).value.1)
    ensures NextCall(p, d).value.1 != Free && p.spot != Probing
  {
  }

  /** `states` is a run: each call is made by some process, in some direction. */
  ghost predicate Runs(states: seq<seq<Proc>>, who: seq<nat>, dirs: seq<Direction>) {
    && |states| == |who| + 1 && |who| == |dirs|
    && forall k :: 0 <= k < |who| ==> who[k] < |states[k]| && CallOf(states[k], who[k], dirs[k], states[k + 1])
  }

  ghost predicate AllUnlocked(procs: seq<Proc>) { forall i :: 0 <= i < |procs| ==>
    procs[i] == Proc(Unlocked, Resting, NOTHING) }

  /** Over every interleaving: the ranges held are exactly those of the levels, at most one process is
      at Reserved or above, and an Exclusive holder excludes every other holder. */
  lemma {:induction false} RunsExclude(states: seq<seq<Proc>>, who: seq<nat>, dirs: seq<Direction>, k: nat)
    requires Runs(states, who, dirs) && AllUnlocked(states[0]) && k < |states|
    ensures Sane(states[k])
    ensures forall i, j :: 0 <= i < j < |states[k]| ==>
            !(Height(states[k][i].level) >= 2 && Height(states[k][j].level) >= 2)
    ensures forall i, j ::
              0 <= i < |states[k]| && 0 <= j < |states[k]| && i != j && states[k][i].level == Exclusive ==>
              states[k][j].level == Unlocked
  {
    hide CallOf;
    if k > 0 {
      RunsExclude(states, who, dirs, k - 1);
      CallKeeps(states[k - 1], who[k - 1], dirs[k - 1], states[k]);
    }
    var s := states[k];
    forall i, j | 0 <= i < j < |s| ensures !(Height(s[i].level) >= 2 && Height(s[j].level) >= 2) {
      assert !Clash(On(s[i].held, ReservedByte), On(s[j].held, ReservedByte));
    }
    forall i, j | 0 <= i < |s| && 0 <= j < |s| && i != j && s[i].level == Exclusive ensures s[j].level == Unlocked {
      Apart(s, i, j, SharedBytes);
    }
  }

  lemma Apart(procs: seq<Proc>, i: nat, j: nat, r: Range)
    requires Compatible(procs) && i < |procs| && j < |procs| && i != j
    ensures !Clash(On(procs[i].held, r), On(procs[j].held, r))
  {
    if i < j {
      assert !Clash(On(procs[i].held, r), On(procs[j].held, r));
    } else {
      assert !Clash(On(procs[j].held, r), On(procs[i].held, r));
    }
  }

  /** A refused climb leaves the process at the ladder level it was at, holding exactly its ranges. */
  lemma RefusalIsReal(procs: seq<Proc>, i: nat, d: Direction)
    requires Sane(procs) && i < |procs| && NextCall(procs[i], d).Some?
    requires !Grants(procs, i, NextCall(procs[i], d).value.0, NextCall(procs[i], d).value.1)
    ensures var q := Refused(procs[i]); q.level == procs[i].level && q.spot == Resting && q.held == RangesOf(q.level)
    ensures d == Up || procs[i].spot != Resting
  {
    ReleaseGranted(procs, i, procs[i], d);
    if d == Down && procs[i].spot == Resting && procs[i].level == Exclusive {
      forall j | 0 <= j < |procs| && j != i ensures !Clash(Reading, On(procs[j].held, SharedBytes)) {
        Apart(procs, i, j, SharedBytes);
      }
    }
  }

  // ----- what Pending does and does not block -----

  /** A climb can start exactly when no other process is at Pending or above. */
  lemma ProbeIff(procs: seq<Proc>, i: nat)
    requires Sane(procs) && i < |procs|
    ensures Grants(procs, i, PendingByte, Reading) <==> forall j :: 0 <= j < |procs| && j != i ==>
            Height(procs[j].level) < 3
  {
    if forall j :: 0 <= j < |procs| && j != i ==> Height(procs[j].level) < 3 {
      forall j | 0 <= j < |procs| && j != i ensures !Clash(Reading, On(procs[j].held, PendingByte)) {
        assert Height(procs[j].level) < 3;
      }
    }
    if Grants(procs, i, PendingByte, Reading) {
      forall j | 0 <= j < |procs| && j != i ensures Height(procs[j].level) < 3 {
        assert !Clash(Reading, On(procs[j].held, PendingByte));
      }
    }
  }

  /** Once past the probe, the shared lock is taken exactly when no other process is Exclusive. */
  lemma SharedAfterProbeIff(procs: seq<Proc>, i: nat)
    requires Sane(procs) && i < |procs|
    ensures Grants(procs, i, SharedBytes, Reading) <==> forall j :: 0 <= j < |procs| && j != i ==>
            procs[j].level != Exclusive
  {
    if forall j :: 0 <= j < |procs| && j != i ==> procs[j].level != Exclusive {
      forall j | 0 <= j < |procs| && j != i ensures !Clash(Reading, On(procs[j].held, SharedBytes)) {
        assert procs[j].level != Exclusive;
      }
    }
    if Grants(procs, i, SharedBytes, Reading) {
      forall j | 0 <= j < |procs| && j != i ensures procs[j].level != Exclusive {
        assert !Clash(Reading, On(procs[j].held, SharedBytes));
      }
    }
  }

  function At(l: Level): (p: Proc) { Proc(l, Resting, RangesOf(l)) }

  lemma TwoStep(a: Proc, b: Proc, i: nat, a': Proc, b': Proc)
    requires i < 2 && Fits(a) && Fits(b) && NextCall([a, b][i], Up).Some?
    requires !Clash(NextCall([a, b][i], Up).value.1, On([b, a][i].held, NextCall([a, b][i], Up).value.0))
    requires [a', b'] == [a, b][i := Granted([a, b][i], Up)]
    ensures CallOf([a, b], i, Up, [a', b'])
  {
    var s := [a, b];
    var call := NextCall(s[i], Up).value;
    forall j | 0 <= j < 2 && j != i ensures !Clash(call.1, On(s[j].held, call.0)) { assert s[j] == [b, a][i]; }
  }

  /** So Pending does not block every new reader: one that probed before the writer climbed gets its
      shared lock after. */
  lemma PendingLetsProbedIn() returns (states: seq<seq<Proc>>, who: seq<nat>, dirs: seq<Direction>)
    ensures Runs(states, who, dirs) && AllUnlocked(states[0])
    ensures var n := |who|;
            n > 0 && states[n - 1] == [At(Pending), Proc(Unlocked, Probed, NOTHING)] &&
            states[n] == [At(Pending), At(Shared)]
  {
    var probe, past := Proc(Unlocked, Probing, Locks(Reading, Free, Free)), Proc(Unlocked, Probed, NOTHING);
    var u := At(Unlocked);
    states := [[u, u], [u, probe], [u, past], [probe, past], [past, past], [At(Shared), past], [At(Reserved), past],
      [At(Pending), past], [At(Pending), At(Shared)]];
    who := [1, 1, 0, 0, 0, 0, 0, 1];
    dirs := [Up, Up, Up, Up, Up, Up, Up, Up];
    TwoStep(u, u, 1, u, probe);
    TwoStep(u, probe, 1, u, past);
    TwoStep(u, past, 0, probe, past);
    TwoStep(probe, past, 0, past, past);
    TwoStep(past, past, 0, At(Shared), past);
    TwoStep(At(Shared), past, 0, At(Reserved), past);
    TwoStep(At(Reserved), past, 0, At(Pending), past);
    TwoStep(At(Pending), past, 1, At(Pending), At(Shared));
  }

  // ----- one process's climb -----

  ghost predicate Allows(others: seq<Locks>, r: Range, k: Held)
  {
    forall j :: 0 <= j < |others| ==> !Clash(k, On(others[j], r))
  }

  /** One call of the interleaving model, against what the others hold at that moment. */
  ghost function Called(p: Proc, d: Direction, others: seq<Locks>): (q: Proc)
    requires NextCall(p, d).Some?
  {
    if Allows(others, NextCall(p, d).value.0, NextCall(p, d).value.1) then Granted(p, d) else Refused(p)
  }

  /** The calls of one rung, until the process rests again, and the number of calls made by then. */
  ghost function Rung(p: Proc, d: Direction, others: nat -> seq<Locks>, calls: nat): (r: (Proc, nat))
    decreases match p.spot case Resting => 2 case Probing => 1 case Probed => 0
  {
    if NextCall(p, d).None? then (p, calls)
    else
      var q := Called(p, d, others(calls));
      if q.spot == Resting then (q, calls + 1) else Rung(q, d, others, calls + 1)
  }

  /** `FileLockState`: `others` is what the other processes hold at each of this one's lock calls. */
  class FileLockState {
    var level: Level
    var held: Locks
    var calls: nat
    const others: nat -> seq<Locks>

    constructor (environment: nat -> seq<Locks>)
      ensures Valid() && level == Unlocked
    {
      level, held, calls, others := Unlocked, NOTHING, 0, environment;
    }

    ghost predicate Valid()
      reads this
    {
      held == RangesOf(level)
    }

    /** `fcntl(F_SETLK)`. */
    method Lock(r: Range, k: Held) returns (ok: bool)
      modifies this`held, this`calls
      ensures held == if ok then Set(old(held), r, k) else old(held)
      ensures calls == old(calls) + 1 && (ok <==> Allows(others(old(calls)), r, k))
    {
      var o := others(calls);
      calls := calls + 1;
      for j := 0 to |o|
        invariant forall m :: 0 <= m < j ==> !Clash(k, On(o[m], r))
        invariant held == old(held) && calls == old(calls) + 1
      {
        if Clash(k, On(o[j], r)) { return false; }
      }
      held := Set(held, r, k);
      ok := true;
    }

    method StepUp() returns (ok: bool)
      requires Valid()
      modifies this
      ensures Valid() && Height(level) == (if ok && old(level) != Exclusive then Height(old(level)) + 1
              else Height(old(level)))
      ensures (At(level), calls) == Rung(old(At(level)), Up, others, old(calls))
    {
      ok := true;
      match level {
        case Unlocked =>
          ok := Lock(PendingByte, Reading);
          if !ok { return; }
          ok := Lock(PendingByte, Free);
          if !ok { assert false; return; }
          ok := Lock(SharedBytes, Reading);
          if ok { level := Shared; }
        case Shared =>
          ok := Lock(ReservedByte, Writing);
          if ok { level := Reserved; }
        case Reserved =>
          ok := Lock(PendingByte, Writing);
          if ok { level := Pending; }
        case Pending =>
          ok := Lock(SharedBytes, Writing);
          if ok { level := Exclusive; }
        case Exclusive =>
      }
    }

    /** Releases are never refused; the downgrade from Exclusive could only be by a conflicting writer. */
    method StepDown() returns (ok: bool)
      requires Valid()
      modifies this
      ensures Valid() && Height(level) == (if ok && old(level) != Unlocked then Height(old(level)) - 1
              else Height(old(level)))
      ensures old(level) != Exclusive ==> ok
      ensures (At(level), calls) == Rung(old(At(level)), Down, others, old(calls))
    {
      ok := true;
      match level {
        case Exclusive =>
          ok := Lock(SharedBytes, Reading);
          if ok { level := Pending; }
        case Pending =>
          ok := Lock(PendingByte, Free);
          level := Reserved;
        case Reserved =>
          ok := Lock(ReservedByte, Free);
          level := Shared;
        case Shared =>
          ok := Lock(SharedBytes, Free);
          level := Unlocked;
        case Unlocked =>
      }
    }

    /** `set_level`: success is exactly reaching the target; a refusal leaves a real ladder level
        between where it started and the target. */
    method SetLevel(target: Level) returns (ok: bool)
      requires Valid()
      modifies this
      ensures Valid() && (ok <==> level == target)
      ensures Height(old(level)) <= Height(target) ==> Height(old(level)) <= Height(level) <= Height(target)
      ensures Height(old(level)) >= Height(target) ==> Height(target) <= Height(level) <= Height(old(level))
    {
      while Height(level) < Height(target)
        invariant Valid()
        invariant Height(old(level)) <= Height(target) ==> Height(old(level)) <= Height(level) <= Height(target)
        invariant Height(old(level)) >= Height(target) ==> level == old(level)
        decreases Height(target) - Height(level)
      {
        ok := StepUp();
        if !ok { return; }
      }
      while Height(level) > Height(target)
        invariant Valid()
        invariant Height(old(level)) <= Height(target) ==> Height(level) == Height(target)
        invariant Height(old(level)) >= Height(target) ==> Height(target) <= Height(level) <= Height(old(level))
        decreases Height(level)
      {
        ok := StepDown();
        if !ok { return; }
      }
      ok := true;
    }
  }
}
