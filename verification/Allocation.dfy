/** VMID allocation for pve-lxc (`create.py`, `pve.py`, `reconcile.py`, `destroy.py`, `locking.py`): processes
    take the lock, scan, reserve by making the directory, release, and write the config later, while configs
    are deleted at any time. */
module Allocation {
  import opened Text

  // ----- next_vmid -----

  const FIRST_VMID := 100

  /** The least number from `v` on that is not used. */
  function LeastFree(used: set<int>, v: int): int
    decreases |used|
  {
    if v in used then LeastFree(used - {v}, v + 1) else v
  }

  lemma {:induction false} LeastFreeFacts(used: set<int>, v: int)
    ensures var r := LeastFree(used, v); r >= v && r !in used && forall u | v <= u < r :: u in used
    decreases |used|
  {
    if v in used {
      LeastFreeFacts(used - {v}, v + 1);
      var r := LeastFree(used, v);
      forall u | v <= u < r ensures u in used {
        if u > v { assert u in used - {v}; }
      }
    }
  }

  /** `next_vmid`. */
  method NextVmid(used: set<int>) returns (vmid: int)
    ensures vmid == LeastFree(used, FIRST_VMID)
    ensures vmid >= FIRST_VMID && vmid !in used && forall u | FIRST_VMID <= u < vmid :: u in used
  {
    vmid := FIRST_VMID;
    ghost var left := used;
    while vmid in used
      invariant vmid >= FIRST_VMID && forall u | FIRST_VMID <= u < vmid :: u in used
      invariant left <= used && forall u | u >= vmid :: u in left <==> u in used
      invariant LeastFree(used, FIRST_VMID) == LeastFree(left, vmid)
      decreases |left|
    {
      left := left - {vmid};
      vmid := vmid + 1;
    }
  }

  // ----- the system -----

  type Pid = nat

  /** Where a process is. An instance is the process that created it, finished. */
  datatype Phase =
    | Waiting(request: Option<int>) | Locked(request: Option<int>) | Chosen(v: int) | Reserved(v: int)
    | Building(v: int) | Written(v: int) | Unwinding(v: int) | Finished(v: int) | Gone
    | AdoptWaiting(v: int) | AdoptLocked(v: int) | AdoptClear(v: int) | AdoptDone
    | ConfLeft(target: Pid, v: int) | DirLeft(target: Pid, v: int) | DestroyDone

  /** `dirs` and `confs` give each VMID's instance directory and PVE config with the process they stem from;
      `marks` are the VMIDs that `kento-vmid` files of pve-vm instances record. */
  datatype State = State(lock: Option<Pid>, dirs: map<int, Pid>, confs: map<int, Pid>, marks: set<int>, procs: map<Pid, Phase>)

  datatype Action =
    | Create(p: Pid, request: Option<int>) | Adopt(p: Pid, v: int) | Destroy(p: Pid, target: Pid)
    | Advance(p: Pid) | Abort(p: Pid)
    | LoseConf(v: int) | Mark(marks: set<int>)

  /** `_used_vmids`. */
  function Used(s: State): set<int> {
    s.confs.Keys + s.dirs.Keys + s.marks
  }

  function At(s: State, p: Pid, phase: Phase): State {
    s.(procs := s.procs[p := phase])
  }

  function Release(s: State): State {
    s.(lock := None)
  }

  /** The next step of a process; None when it has none, or waits for the lock. */
  function Progress(s: State, p: Pid): Option<State>
    requires p in s.procs
  {
    match s.procs[p]
    case Waiting(r) => if s.lock.Some? then None else Some(At(s, p, Locked(r)).(lock := Some(p)))
    case Locked(r) =>
      (match r
       case None => Some(At(s, p, Chosen(LeastFree(Used(s), FIRST_VMID))))
       case Some(v) => Some(if v < FIRST_VMID || v in Used(s) then Release(At(s, p, Gone)) else At(s, p, Chosen(v))))
    case Chosen(v) =>
      Some(if v in s.dirs then Release(At(s, p, Gone)) else At(s, p, Reserved(v)).(dirs := s.dirs[v := p]))
    case Reserved(v) => Some(Release(At(s, p, Building(v))))
    case Building(v) => Some(At(s, p, Written(v)).(confs := s.confs[v := p]))
    case Written(v) => Some(At(s, p, Finished(v)))
    case Unwinding(v) => Some(At(s, p, Gone).(dirs := s.dirs - {v}))
    case AdoptWaiting(v) => if s.lock.Some? then None else Some(At(s, p, AdoptLocked(v)).(lock := Some(p)))
    case AdoptLocked(v) => Some(if v in s.confs then Release(At(s, p, AdoptDone)) else At(s, p, AdoptClear(v)))
    case AdoptClear(v) =>
      var done := Release(At(s, p, AdoptDone));
      Some(if v in s.dirs then done.(confs := s.confs[v := s.dirs[v]]) else done)
    case ConfLeft(t, v) => Some(At(s, p, DirLeft(t, v)).(confs := s.confs - {v}))
    case DirLeft(t, v) =>
      var removed := At(s, p, DestroyDone).(dirs := s.dirs - {v});
      Some(if t in s.procs && s.procs[t] == Finished(v) && t != p then At(removed, t, Gone) else removed)
    case _ => None
  }

  /** A destroy of the instance is under way. */
  predicate BeingDestroyed(s: State, target: Pid) {
    exists q | q in s.procs :: match s.procs[q] case ConfLeft(t, _) => t == target case DirLeft(t, _) => t == target case _ => false
  }

  /** A phase in which the instance directory can be found by name, so that a destroy can be asked for. */
  predicate HasDirectory(phase: Phase) {
    phase.Building? || phase.Written? || phase.Unwinding? || phase.Finished?
  }

  /** One step of the system. A destroy takes no lock and does not ask whether the instance is finished, or
      whether another destroy of it is under way. */
  function Next(s: State, a: Action): Option<State> {
    match a
    case Create(p, r) => if p in s.procs then None else Some(At(s, p, Waiting(r)))
    case Adopt(p, v) => if p in s.procs then None else Some(At(s, p, AdoptWaiting(v)))
    case Destroy(p, t) =>
      if p in s.procs || t !in s.procs || !HasDirectory(s.procs[t]) then None
      else Some(At(s, p, ConfLeft(t, s.procs[t].v)))
    case Advance(p) => if p in s.procs then Progress(s, p) else None
    case Abort(p) =>
      if p !in s.procs then None
      else
        (match s.procs[p]
         case Building(v) => Some(At(s, p, Unwinding(v)))
         case Written(v) => Some(At(s, p, Unwinding(v)).(confs := s.confs - {v}))
         case _ => None)
    case LoseConf(v) => Some(s.(confs := s.confs - {v}))
    case Mark(marks) => Some(s.(marks := marks))
  }

  /** A destroy is about to remove, by path, a directory that is not a finished instance of its own target. */
  predicate Stray(s: State, a: Action) {
    a.Advance? && a.p in s.procs && s.procs[a.p].DirLeft?
    && var v := s.procs[a.p].v; var t := s.procs[a.p].target;
       v in s.dirs && !(s.dirs[v] == t && t in s.procs && s.procs[t] == Finished(v))
  }

  /** What a caller of destroy can see to: the instance is finished; it is the only destroy of it. */
  datatype Rule = OfFinished | OneAtATime

  predicate Obeys(s: State, a: Action, rule: Rule) {
    a.Destroy? && a.target in s.procs ==>
      match rule
      case OfFinished => s.procs[a.target].Finished?
      case OneAtATime => !BeingDestroyed(s, a.target)
  }

  predicate Careful(s: State, a: Action) {
    Obeys(s, a, OfFinished) && Obeys(s, a, OneAtATime)
  }

  // ----- the invariant -----

  predicate Holds(phase: Phase, v: int) {
    match phase
    case Reserved(w) => w == v
    case Building(w) => w == v
    case Written(w) => w == v
    case Unwinding(w) => w == v
    case Finished(w) => w == v
    case _ => false
  }

  predicate HasLock(phase: Phase) {
    phase.Locked? || phase.Chosen? || phase.Reserved? || phase.AdoptLocked? || phase.AdoptClear?
  }

  predicate Destroys(phase: Phase) {
    phase.ConfLeft? || phase.DirLeft?
  }

  /** A process holds a VMID exactly when the directory of that VMID is its own. */
  ghost predicate DirsHeld(s: State) {
    && (forall p, v | p in s.procs && Holds(s.procs[p], v) :: v in s.dirs && s.dirs[v] == p)
    && (forall v | v in s.dirs :: s.dirs[v] in s.procs && Holds(s.procs[s.dirs[v]], v))
  }

  /** The lock has at most one holder: the process inside a locked region. */
  ghost predicate LockHeld(s: State) {
    && (s.lock.Some? ==> s.lock.value in s.procs)
    && forall p | p in s.procs :: HasLock(s.procs[p]) <==> s.lock == Some(p)
  }

  /** A chosen VMID is free, and a config beside a directory is that directory's. */
  ghost predicate ConfsMatch(s: State) {
    && (forall p | p in s.procs && s.procs[p].Chosen? :: s.procs[p].v >= FIRST_VMID && s.procs[p].v !in s.dirs && s.procs[p].v !in s.confs)
    && (forall v | v in s.dirs && v in s.confs :: s.confs[v] == s.dirs[v])
  }

  /** Destroys work on finished instances, one destroy for each. */
  ghost predicate DestroysApart(s: State) {
    && (forall p | p in s.procs && Destroys(s.procs[p]) ::
          s.procs[p].target in s.procs && s.procs[s.procs[p].target] == Finished(s.procs[p].v))
    && (forall p, q | p in s.procs && q in s.procs && Destroys(s.procs[p]) && Destroys(s.procs[q])
                      && s.procs[p].target == s.procs[q].target :: p == q)
  }

  ghost predicate Inv(s: State) {
    DirsHeld(s) && LockHeld(s) && ConfsMatch(s)
  }

  lemma ProgressMoves(s: State, p: Pid)
    requires p in s.procs && Progress(s, p).Some? && !s.procs[p].DirLeft?
    ensures var t := Progress(s, p).value; p in t.procs && t.procs == s.procs[p := t.procs[p]]
  {
    hide LeastFree, Used;
  }

  /** Only the process that steps can take or leave the lock. */
  lemma LockPhase(s: State, p: Pid)
    requires p in s.procs && Progress(s, p).Some? && !s.procs[p].DirLeft?
    requires HasLock(s.procs[p]) <==> s.lock == Some(p)
    ensures var t := Progress(s, p).value;
            && p in t.procs && (HasLock(t.procs[p]) <==> t.lock == Some(p))
            && forall q | q != p :: t.lock == Some(q) <==> s.lock == Some(q)
  {
    hide LeastFree, Used;
  }

  lemma AdvanceKeepsLock(s: State, p: Pid)
    requires LockHeld(s) && p in s.procs && Progress(s, p).Some?
    ensures LockHeld(Progress(s, p).value)
  {
    var t := Progress(s, p).value;
    if s.procs[p].DirLeft? {
      hide LeastFree, Used;
      assert t.lock == s.lock && t.procs.Keys == s.procs.Keys;
    } else {
      hide Progress, HasLock;
      ProgressMoves(s, p);
      LockPhase(s, p);
    }
  }

  lemma StepKeepsLock(s: State, a: Action)
    requires LockHeld(s) && Next(s, a).Some?
    ensures LockHeld(Next(s, a).value)
  {
    if a.Advance? { AdvanceKeepsLock(s, a.p); }
    hide Progress;
  }

  // Directories and holders.

  lemma HoldersQuiet(s: State, t: State, p: Pid, phase: Phase)
    requires DirsHeld(s) && t.dirs == s.dirs && t.procs == s.procs[p := phase]
    requires forall v :: Holds(phase, v) <==> p in s.procs && Holds(s.procs[p], v)
    ensures DirsHeld(t)
  {
    hide Holds;
  }

  lemma HolderAdded(s: State, t: State, p: Pid, v: int)
    requires DirsHeld(s) && p in s.procs && s.procs[p] == Chosen(v) && v !in s.dirs
    requires t.dirs == s.dirs[v := p] && t.procs == s.procs[p := Reserved(v)]
    ensures DirsHeld(t)
  {
    forall w | w in t.dirs ensures t.dirs[w] in t.procs && Holds(t.procs[t.dirs[w]], w) {
      if w != v { assert Holds(s.procs[s.dirs[w]], w); }
    }
  }

  lemma HolderRemoved(s: State, t: State, p: Pid, v: int)
    requires DirsHeld(s) && p in s.procs && Holds(s.procs[p], v)
    requires t.dirs == s.dirs - {v} && t.procs == s.procs[p := Gone]
    ensures DirsHeld(t)
  {
    forall q, w | q in t.procs && Holds(t.procs[q], w) ensures w in t.dirs && t.dirs[w] == q {
      assert q in s.procs && q != p && Holds(s.procs[q], w);
      assert w in s.dirs && s.dirs[w] == q && s.dirs[v] == p;
    }
    forall w | w in t.dirs ensures t.dirs[w] in t.procs && Holds(t.procs[t.dirs[w]], w) {
      assert Holds(s.procs[s.dirs[w]], w);
    }
  }

  lemma HolderIsFinished(s: State, p: Pid)
    requires DirsHeld(s) && p in s.procs && s.procs[p].DirLeft? && !Stray(s, Advance(p))
    ensures var v, t := s.procs[p].v, s.procs[p].target;
            if v in s.dirs then t in s.procs && t != p && s.procs[t] == Finished(v) && Holds(s.procs[t], v)
            else t in s.procs ==> s.procs[t] != Finished(v)
  {
    var v, t := s.procs[p].v, s.procs[p].target;
    assert t in s.procs && Holds(s.procs[t], v) ==> v in s.dirs;
  }

  lemma AdvanceKeepsDirs(s: State, p: Pid)
    requires DirsHeld(s) && p in s.procs && Progress(s, p).Some? && !Stray(s, Advance(p))
    ensures DirsHeld(Progress(s, p).value)
  {
    hide LeastFree, Used, DirsHeld;
    var t := Progress(s, p).value;
    var phase := s.procs[p];
    if phase.Chosen? && phase.v !in s.dirs {
      HolderAdded(s, t, p, phase.v);
    } else if phase.Unwinding? {
      HolderRemoved(s, t, p, phase.v);
    } else if phase.DirLeft? {
      var idle := At(s, p, DestroyDone);
      HolderIsFinished(s, p);
      HoldersQuiet(s, idle, p, DestroyDone);
      if phase.v in s.dirs {
        HolderRemoved(idle, t, phase.target, phase.v);
      } else {
        assert s.dirs - {phase.v} == s.dirs;
        HoldersQuiet(s, t, p, DestroyDone);
      }
    } else {
      HoldersQuiet(s, t, p, t.procs[p]);
    }
  }

  lemma Unmoved(s: State, t: State)
    requires DirsHeld(s) && t.dirs == s.dirs && t.procs == s.procs
    ensures DirsHeld(t)
  {
  }

  lemma StepKeepsDirs(s: State, a: Action)
    requires DirsHeld(s) && Next(s, a).Some? && !Stray(s, a)
    ensures DirsHeld(Next(s, a).value)
  {
    hide DirsHeld, Progress;
    var t := Next(s, a).value;
    match a {
      case Advance(p) => AdvanceKeepsDirs(s, p);
      case LoseConf(_) => Unmoved(s, t);
      case Mark(_) => Unmoved(s, t);
      case _ => HoldersQuiet(s, t, a.p, t.procs[a.p]);
    }
  }

  // Chosen VMIDs and configs.

  /** No chosen VMID is taken, where only `p` may be the process that chose last. */
  lemma ConfsShrink(s: State, t: State, p: Pid, phase: Phase)
    requires ConfsMatch(s) && t.procs == s.procs[p := phase] && t.dirs.Keys <= s.dirs.Keys && t.confs.Keys <= s.confs.Keys
    requires (forall v | v in t.dirs :: t.dirs[v] == s.dirs[v]) && (forall v | v in t.confs :: t.confs[v] == s.confs[v])
    requires phase.Chosen? ==> phase.v >= FIRST_VMID && phase.v !in t.dirs && phase.v !in t.confs
    ensures ConfsMatch(t)
  {
  }

  lemma DirAdded(s: State, t: State, p: Pid, v: int)
    requires ConfsMatch(s) && LockHeld(s) && p in s.procs && s.procs[p] == Chosen(v)
    requires t.dirs == s.dirs[v := p] && t.confs == s.confs && t.procs == s.procs[p := Reserved(v)]
    ensures ConfsMatch(t)
  {
    forall q | q in t.procs ensures !t.procs[q].Chosen? {
      assert HasLock(s.procs[p]);
      assert q != p ==> q in s.procs && !HasLock(s.procs[q]);
    }
  }

  lemma ConfAdded(s: State, t: State, p: Pid, phase: Phase, v: int)
    requires ConfsMatch(s) && v in s.dirs && !phase.Chosen?
    requires t.dirs == s.dirs && t.confs == s.confs[v := s.dirs[v]] && t.procs == s.procs[p := phase]
    ensures ConfsMatch(t)
  {
  }

  lemma AdvanceKeepsConfs(s: State, p: Pid)
    requires Inv(s) && p in s.procs && Progress(s, p).Some?
    ensures ConfsMatch(Progress(s, p).value)
  {
    LeastFreeFacts(Used(s), FIRST_VMID);
    assert s.procs[p].Building? ==> Holds(s.procs[p], s.procs[p].v) && s.procs[p].v in s.dirs && s.dirs[s.procs[p].v] == p;
    hide LeastFree, DirsHeld, LockHeld, ConfsMatch;
    var t := Progress(s, p).value;
    var phase := s.procs[p];
    if phase.Chosen? && phase.v !in s.dirs {
      DirAdded(s, t, p, phase.v);
    } else if phase.Building? {
      ConfAdded(s, t, p, Written(phase.v), phase.v);
    } else if phase.AdoptClear? && phase.v in s.dirs {
      ConfAdded(s, t, p, AdoptDone, phase.v);
    } else if phase.DirLeft? {
      var idle := At(s, p, DestroyDone).(dirs := s.dirs - {phase.v});
      ConfsShrink(s, idle, p, DestroyDone);
      if t != idle { ConfsShrink(idle, t, phase.target, Gone); }
    } else {
      ConfsShrink(s, t, p, t.procs[p]);
    }
  }

  lemma StepKeepsConfs(s: State, a: Action)
    requires Inv(s) && Next(s, a).Some?
    ensures ConfsMatch(Next(s, a).value)
  {
    hide Progress, DirsHeld, LockHeld;
    if a.Advance? {
      AdvanceKeepsConfs(s, a.p);
    }
  }

  // Destroys.

  /** A process that is no destroy moves, and is no target unless it stays finished. */
  lemma DestroysQuiet(s: State, t: State, p: Pid, phase: Phase)
    requires DestroysApart(s) && t.procs == s.procs[p := phase]
    requires p in s.procs && (s.procs[p].Finished? ==> phase == s.procs[p])
    requires Destroys(phase) ==> Destroys(s.procs[p]) && phase.target == s.procs[p].target && phase.v == s.procs[p].v
    ensures DestroysApart(t)
  {
  }

  lemma TargetIsFinished(s: State, p: Pid)
    requires DestroysApart(s) && p in s.procs && s.procs[p].DirLeft?
    ensures s.procs[p].target in s.procs && s.procs[p].target != p && s.procs[s.procs[p].target] == Finished(s.procs[p].v)
  {
    assert Destroys(s.procs[p]);
  }

  lemma ProgressTarget(s: State, p: Pid)
    requires p in s.procs && Progress(s, p).Some? && !s.procs[p].DirLeft? && p in Progress(s, p).value.procs
    requires Destroys(Progress(s, p).value.procs[p])
    ensures var phase := Progress(s, p).value.procs[p];
            Destroys(s.procs[p]) && phase.target == s.procs[p].target && phase.v == s.procs[p].v
  {
    hide LeastFree, Used;
  }

  lemma ProgressPhase(s: State, p: Pid)
    requires p in s.procs && Progress(s, p).Some? && !s.procs[p].DirLeft?
    ensures var t := Progress(s, p).value;
            && p in t.procs && t.procs == s.procs[p := t.procs[p]] && !s.procs[p].Finished?
            && (Destroys(t.procs[p]) ==> Destroys(s.procs[p]) && t.procs[p].target == s.procs[p].target && t.procs[p].v == s.procs[p].v)
  {
    assert !s.procs[p].Finished?;
    hide Progress, Destroys;
    ProgressMoves(s, p);
    if Destroys(Progress(s, p).value.procs[p]) {
      ProgressTarget(s, p);
    }
  }

  lemma ProgressLast(s: State, p: Pid)
    requires DestroysApart(s) && p in s.procs && s.procs[p].DirLeft?
    ensures Progress(s, p).Some? && Progress(s, p).value.procs == s.procs[p := DestroyDone][s.procs[p].target := Gone]
  {
    hide LeastFree, Used, DestroysApart;
    TargetIsFinished(s, p);
  }

  lemma DestroyEnds(s: State, t: State, p: Pid)
    requires DestroysApart(s) && p in s.procs && s.procs[p].DirLeft?
    requires t.procs == s.procs[p := DestroyDone][s.procs[p].target := Gone]
    ensures DestroysApart(t)
  {
  }

  lemma AdvanceKeepsDestroys(s: State, p: Pid)
    requires DestroysApart(s) && p in s.procs && Progress(s, p).Some?
    ensures DestroysApart(Progress(s, p).value)
  {
    hide Progress, DestroysApart;
    var t := Progress(s, p).value;
    if s.procs[p].DirLeft? {
      ProgressLast(s, p);
      DestroyEnds(s, t, p);
    } else {
      ProgressPhase(s, p);
      DestroysQuiet(s, t, p, t.procs[p]);
    }
  }

  lemma StepKeepsDestroys(s: State, a: Action)
    requires DestroysApart(s) && Next(s, a).Some? && Careful(s, a)
    ensures DestroysApart(Next(s, a).value)
  {
    hide Progress;
    if a.Advance? { AdvanceKeepsDestroys(s, a.p); }
  }

  /** Every step keeps the invariant, except a destroy that removes a directory by path astray. */
  lemma StepKeepsInv(s: State, a: Action)
    requires Inv(s) && Next(s, a).Some? && !Stray(s, a)
    ensures Inv(Next(s, a).value)
  {
    StepKeepsDirs(s, a);
    StepKeepsLock(s, a);
    StepKeepsConfs(s, a);
    hide Next, DirsHeld, LockHeld, ConfsMatch, Stray;
  }

  /** Destroys that work on finished instances, one for each, never go astray. */
  lemma ApartIsNotStray(s: State, a: Action)
    requires DirsHeld(s) && DestroysApart(s)
    ensures !Stray(s, a)
  {
    if a.Advance? && a.p in s.procs && s.procs[a.p].DirLeft? {
      TargetIsFinished(s, a.p);
      assert Holds(s.procs[s.procs[a.p].target], s.procs[a.p].v);
    }
  }

  // ----- runs -----

  /** The actions can be taken one after the other. */
  predicate Legal(s: State, run: seq<Action>)
    decreases |run|
  {
    run == [] || (Next(s, run[0]).Some? && Legal(Next(s, run[0]).value, run[1..]))
  }

  function After(s: State, run: seq<Action>): State
    requires Legal(s, run)
    decreases |run|
  {
    if run == [] then s else After(Next(s, run[0]).value, run[1..])
  }

  /** No destroy of the run goes astray. */
  predicate Orderly(s: State, run: seq<Action>)
    requires Legal(s, run)
    decreases |run|
  {
    run != [] ==> !Stray(s, run[0]) && Orderly(Next(s, run[0]).value, run[1..])
  }

  /** Every destroy of the run is asked for by the rule. */
  predicate AllObey(s: State, run: seq<Action>, rule: Rule)
    requires Legal(s, run)
    decreases |run|
  {
    run != [] ==> Obeys(s, run[0], rule) && AllObey(Next(s, run[0]).value, run[1..], rule)
  }

  lemma {:induction false} RunKeepsInv(s: State, run: seq<Action>)
    requires Inv(s) && Legal(s, run) && Orderly(s, run)
    ensures Inv(After(s, run))
    decreases |run|
  {
    if run == [] {
    } else {
      StepKeepsInv(s, run[0]);
      hide Inv, Next, Stray;
      RunKeepsInv(Next(s, run[0]).value, run[1..]);
    }
  }

  /** Destroys of finished instances, one at a time for each, never go astray in any run. */
  lemma {:induction false} CarefulIsOrderly(s: State, run: seq<Action>)
    requires Inv(s) && DestroysApart(s) && Legal(s, run) && AllObey(s, run, OfFinished) && AllObey(s, run, OneAtATime)
    ensures Orderly(s, run)
    decreases |run|
  {
    if run == [] {
    } else {
      ApartIsNotStray(s, run[0]);
      StepKeepsInv(s, run[0]);
      StepKeepsDestroys(s, run[0]);
      hide DirsHeld, LockHeld, ConfsMatch, DestroysApart, Next, Stray, Obeys;
      CarefulIsOrderly(Next(s, run[0]).value, run[1..]);
    }
  }

  /** A host at rest: finished instances only, each with its directory; any of them may have lost its config. */
  ghost predicate AtRest(s: State) {
    && s.lock.None?
    && (forall p | p in s.procs :: s.procs[p].Finished? && s.procs[p].v in s.dirs && s.dirs[s.procs[p].v] == p)
    && (forall v | v in s.dirs :: s.dirs[v] in s.procs && s.procs[s.dirs[v]] == Finished(v))
    && (forall v | v in s.dirs && v in s.confs :: s.confs[v] == s.dirs[v])
  }

  lemma AtRestIsSafe(s: State)
    requires AtRest(s)
    ensures Inv(s) && DestroysApart(s)
  {
  }

  /** No two processes past the locked region hold the same VMID, in any state of any run in which no destroy
      goes astray. */
  lemma VmidsDistinct(s: State, run: seq<Action>, p: Pid, q: Pid, v: int)
    requires AtRest(s) && Legal(s, run) && Orderly(s, run)
    requires var t := After(s, run);
             p in t.procs && q in t.procs && Holds(t.procs[p], v) && Holds(t.procs[q], v)
    ensures p == q
  {
    AtRestIsSafe(s);
    RunKeepsInv(s, run);
    hide AtRest, Legal, After, LockHeld, ConfsMatch, DestroysApart, Holds;
    var t := After(s, run);
    assert v in t.dirs && t.dirs[v] == p;
    assert t.dirs[v] == q;
  }

  /** What a create is handed is at least 100 and reserved by no directory, orphaned or not, by no config
      and by no recorded pve-vm; the automatic choice is the least such number. */
  lemma HandedOutIsFree(s: State, p: Pid)
    requires p in s.procs && s.procs[p].Locked? && Progress(s, p).Some? && Progress(s, p).value.procs[p].Chosen?
    ensures var v := Progress(s, p).value.procs[p].v;
            && v >= FIRST_VMID && v !in s.dirs && v !in s.confs && v !in s.marks
            && (s.procs[p].request.None? ==> forall u | FIRST_VMID <= u < v :: u in s.dirs || u in s.confs || u in s.marks)
            && (s.procs[p].request.Some? ==> v == s.procs[p].request.value)
  {
    LeastFreeFacts(Used(s), FIRST_VMID);
    hide LeastFree;
    var v := Progress(s, p).value.procs[p].v;
    if s.procs[p].request.None? {
      forall u | FIRST_VMID <= u < v ensures u in s.dirs || u in s.confs || u in s.marks {
        assert u in Used(s);
      }
    }
  }

  /** The choice is still free when the directory is made: making it is never refused. */
  lemma ReservationSucceeds(s: State, run: seq<Action>, p: Pid)
    requires AtRest(s) && Legal(s, run) && Orderly(s, run)
    requires var t := After(s, run); p in t.procs && t.procs[p].Chosen?
    ensures var t := After(s, run);
            && Next(t, Advance(p)).Some?
            && Next(t, Advance(p)).value.procs[p] == Reserved(t.procs[p].v)
  {
    AtRestIsSafe(s);
    RunKeepsInv(s, run);
    hide AtRest, Legal, After, LockHeld, DirsHeld, LeastFree;
  }

  /** A step takes a directory away only in the name of its own process: its rollback, or its destroy. */
  lemma StepKeepsOthers(s: State, a: Action, v: int)
    requires Inv(s) && Next(s, a).Some? && !Stray(s, a) && v in s.dirs
    ensures var t := Next(s, a).value;
            (v in t.dirs && t.dirs[v] == s.dirs[v]) || (v !in t.dirs && t.procs[s.dirs[v]] == Gone)
  {
    hide LockHeld, LeastFree, Used;
    assert s.dirs[v] in s.procs && Holds(s.procs[s.dirs[v]], v);
  }

  lemma GoneStays(s: State, a: Action, p: Pid)
    requires p in s.procs && s.procs[p] == Gone && Next(s, a).Some?
    ensures p in Next(s, a).value.procs && Next(s, a).value.procs[p] == Gone
  {
    hide LeastFree, Used;
  }

  lemma {:induction false} GoneForGood(s: State, run: seq<Action>, p: Pid)
    requires p in s.procs && s.procs[p] == Gone && Legal(s, run)
    ensures p in After(s, run).procs && After(s, run).procs[p] == Gone
    decreases |run|
  {
    if run == [] {
    } else {
      GoneStays(s, run[0], p);
      hide Next;
      GoneForGood(Next(s, run[0]).value, run[1..], p);
    }
  }

  lemma KnownProcess(s: State, a: Action, p: Pid)
    requires p in s.procs && Next(s, a).Some?
    ensures p in Next(s, a).value.procs
  {
    hide LeastFree, Used;
  }

  /** A reserved VMID stays its owner's through every run, orphan or not, until the owner itself is gone. */
  lemma {:induction false} ReservationLasts(s: State, run: seq<Action>, v: int)
    requires Inv(s) && Legal(s, run) && Orderly(s, run) && v in s.dirs
    ensures var t := After(s, run);
            s.dirs[v] in t.procs && (t.procs[s.dirs[v]] == Gone || (v in t.dirs && t.dirs[v] == s.dirs[v]))
    decreases |run|
  {
    if run == [] {
    } else {
      StepKeepsInv(s, run[0]);
      StepKeepsOthers(s, run[0], v);
      var t := Next(s, run[0]).value;
      if v in t.dirs && t.dirs[v] == s.dirs[v] {
        ReservationLasts(t, run[1..], v);
      } else {
        KnownProcess(s, run[0], s.dirs[v]);
        GoneForGood(t, run[1..], s.dirs[v]);
      }
    }
  }

  /** A create only ever replaces a config of its own. A destroy, going by path, deletes its target's config
      exactly as long as the directory beside it is the target's. */
  lemma ConfigsAreOwn(s: State, p: Pid)
    requires Inv(s) && p in s.procs
    ensures s.procs[p].Building? && s.procs[p].v in s.confs ==> s.confs[s.procs[p].v] == p
    ensures s.procs[p].ConfLeft? && s.procs[p].v in s.confs && s.procs[p].v in s.dirs
            ==> (s.confs[s.procs[p].v] == s.procs[p].target <==> s.dirs[s.procs[p].v] == s.procs[p].target)
  {
    hide LockHeld;
    if s.procs[p].Building? {
      assert Holds(s.procs[p], s.procs[p].v);
    }
  }

  // ----- who has a config -----

  /** A create that is past writing its config has it. */
  predicate HasOwnConf(s: State, p: Pid) {
    p in s.procs && (s.procs[p].Written? || s.procs[p].Finished?) ==>
      s.procs[p].v in s.confs && s.confs[s.procs[p].v] == p
  }

  /** The step takes the config away from the VMID of a create that is past writing it: the config is lost, or some
      destroy that goes by this VMID deletes it. */
  predicate Robs(s: State, a: Action, p: Pid) {
    && p in s.procs && (s.procs[p].Written? || s.procs[p].Finished?)
    && (a == LoseConf(s.procs[p].v)
        || (a.Advance? && a.p in s.procs && s.procs[a.p].ConfLeft? && s.procs[a.p].v == s.procs[p].v))
  }

  predicate Robbed(s: State, run: seq<Action>, p: Pid)
    requires Legal(s, run)
    decreases |run|
  {
    run != [] && (Robs(s, run[0], p) || Robbed(Next(s, run[0]).value, run[1..], p))
  }

  /** How one step changes the config of a VMID. */
  lemma ConfChange(s: State, a: Action, v: int)
    requires Next(s, a).Some?
    ensures var t := Next(s, a).value;
            v in t.confs && !(v in s.confs && s.confs[v] == t.confs[v]) ==>
              && a.Advance? && a.p in s.procs
              && ((s.procs[a.p] == Building(v) && t.confs[v] == a.p)
                  || (s.procs[a.p] == AdoptClear(v) && v in s.dirs && t.confs[v] == s.dirs[v]))
    ensures v in s.confs && v !in Next(s, a).value.confs ==>
              || a == LoseConf(v)
              || (a.Abort? && a.p in s.procs && s.procs[a.p] == Written(v))
              || (a.Advance? && a.p in s.procs && s.procs[a.p].ConfLeft? && s.procs[a.p].v == v)
  {
    hide LeastFree, Used, BeingDestroyed;
  }

  /** A create that is past writing its config and was not before, or the step is not its own. */
  lemma ProgressPast(s: State, q: Pid, p: Pid)
    requires q in s.procs && Progress(s, q).Some? && p in Progress(s, q).value.procs
    requires Progress(s, q).value.procs[p].Written? || Progress(s, q).value.procs[p].Finished?
    ensures p in s.procs
    ensures var t := Progress(s, q).value;
            if p == q && s.procs[p].Building? then t.procs[p] == Written(s.procs[p].v) && t.confs == s.confs[s.procs[p].v := p]
            else (s.procs[p].Written? || s.procs[p].Finished?) && s.procs[p].v == t.procs[p].v
  {
    hide LeastFree, Used;
    if p != q {
      assert s.procs[q].DirLeft? || Progress(s, q).value.procs[p] == s.procs[p];
    }
  }

  /** A create is past writing its config only by the step that writes it. */
  lemma PhaseChange(s: State, a: Action, p: Pid)
    requires Next(s, a).Some? && p in Next(s, a).value.procs
    requires Next(s, a).value.procs[p].Written? || Next(s, a).value.procs[p].Finished?
    ensures p in s.procs
    ensures var phase, was := Next(s, a).value.procs[p], s.procs[p];
            if a == Advance(p) && was.Building? then phase == Written(was.v) && Next(s, a).value.confs == s.confs[was.v := p]
            else (was.Written? || was.Finished?) && was.v == phase.v && a != Abort(p)
  {
    hide Progress, BeingDestroyed;
    if a.Advance? {
      ProgressPast(s, a.p, p);
    }
  }

  lemma StepKeepsOwnConf(s: State, a: Action, p: Pid)
    requires Inv(s) && Next(s, a).Some? && HasOwnConf(s, p) && !Robs(s, a, p)
    ensures HasOwnConf(Next(s, a).value, p)
  {
    hide Next, LockHeld, ConfsMatch;
    var t := Next(s, a).value;
    if p in t.procs && (t.procs[p].Written? || t.procs[p].Finished?) {
      PhaseChange(s, a, p);
      var v := t.procs[p].v;
      ConfChange(s, a, v);
      assert Holds(s.procs[p], v) && v in s.dirs && s.dirs[v] == p;
      assert (a.Advance? || a.Abort?) && a.p in s.procs && Holds(s.procs[a.p], v) ==> a.p == p;
    }
  }

  /** Through every run in which no destroy goes astray, a create that is past writing its config has it, unless the
      config was lost or a destroy took it. */
  lemma {:induction false} CreatesHaveConfigs(s: State, run: seq<Action>, p: Pid)
    requires Inv(s) && HasOwnConf(s, p) && Legal(s, run) && Orderly(s, run) && !Robbed(s, run, p)
    ensures HasOwnConf(After(s, run), p)
    decreases |run|
  {
    if run == [] {
    } else {
      StepKeepsInv(s, run[0]);
      StepKeepsOwnConf(s, run[0], p);
      hide Inv, Next, Stray, Robs, HasOwnConf;
      CreatesHaveConfigs(Next(s, run[0]).value, run[1..], p);
    }
  }

  /** The config is written by the step that ends the building, and a finished create keeps it. */
  lemma BuildingWrites(s: State, p: Pid, v: int)
    requires p in s.procs && s.procs[p] == Building(v)
    ensures Next(s, Advance(p)) == Some(s.(procs := s.procs[p := Written(v)], confs := s.confs[v := p]))
  {
  }

  /** An adopt that found no config and comes to its end gives the owner of the directory its config, and
      touches no other; without a directory it does nothing. */
  lemma AdoptGivesBack(s: State, a: Pid, v: int)
    requires Inv(s) && a in s.procs && s.procs[a] == AdoptClear(v)
    ensures Next(s, Advance(a)).Some?
    ensures var t := Next(s, Advance(a)).value;
            && t.procs[a] == AdoptDone && t.lock.None? && t.dirs == s.dirs
            && (if v in s.dirs then t.confs == s.confs[v := s.dirs[v]] && HasOwnConf(t, s.dirs[v]) else t.confs == s.confs)
  {
    hide LockHeld, LeastFree, Used;
    if v in s.dirs {
      assert Holds(s.procs[s.dirs[v]], v);
    }
  }

  /** The create at this VMID is being rolled back, or is, and has no config there. */
  predicate RolledBack(s: State, p: Pid, v: int) {
    p in s.procs && (s.procs[p] == Unwinding(v) || s.procs[p] == Gone) && !(v in s.confs && s.confs[v] == p)
  }

  /** An adopt gives a config to the directory that the process still has at this VMID. */
  predicate Revives(s: State, a: Action, p: Pid, v: int) {
    a.Advance? && a.p in s.procs && s.procs[a.p] == AdoptClear(v) && v in s.dirs && s.dirs[v] == p
  }

  predicate Revived(s: State, run: seq<Action>, p: Pid, v: int)
    requires Legal(s, run)
    decreases |run|
  {
    run != [] && (Revives(s, run[0], p, v) || Revived(Next(s, run[0]).value, run[1..], p, v))
  }

  /** Aborting a create that has written its config deletes that config. */
  lemma AbortDeletes(s: State, p: Pid, v: int)
    requires Inv(s) && p in s.procs && s.procs[p] == Written(v)
    ensures v in s.confs ==> s.confs[v] == p
    ensures Next(s, Abort(p)) == Some(s.(procs := s.procs[p := Unwinding(v)], confs := s.confs - {v}))
    ensures RolledBack(Next(s, Abort(p)).value, p, v)
  {
    hide LockHeld;
    assert Holds(s.procs[p], v);
  }

  lemma UnwindingEnds(s: State, a: Action, p: Pid, v: int)
    requires p in s.procs && (s.procs[p] == Unwinding(v) || s.procs[p] == Gone) && Next(s, a).Some?
    ensures var t := Next(s, a).value; p in t.procs && (t.procs[p] == Unwinding(v) || t.procs[p] == Gone)
  {
    hide LeastFree, Used, BeingDestroyed;
  }

  lemma RevivalGives(s: State, a: Action, p: Pid, v: int)
    requires Revives(s, a, p, v)
    ensures Next(s, a).Some? && v in Next(s, a).value.confs && Next(s, a).value.confs[v] == p
  {
    hide LeastFree, Used;
  }

  lemma StepKeepsRolledBack(s: State, a: Action, p: Pid, v: int)
    requires Next(s, a).Some? && RolledBack(s, p, v)
    ensures RolledBack(Next(s, a).value, p, v) <==> !Revives(s, a, p, v)
  {
    hide Next;
    UnwindingEnds(s, a, p, v);
    if Revives(s, a, p, v) {
      RevivalGives(s, a, p, v);
    } else {
      ConfChange(s, a, v);
    }
  }

  /** After the abort of a create that had written its config, no config of it is at its VMID in any run, unless an
      adopt gives its directory one before the rollback takes the directory away. */
  lemma {:induction false} RollbackLeavesNoConfig(s: State, run: seq<Action>, p: Pid, v: int)
    requires RolledBack(s, p, v) && Legal(s, run) && !Revived(s, run, p, v)
    ensures RolledBack(After(s, run), p, v)
    decreases |run|
  {
    if run == [] {
    } else {
      StepKeepsRolledBack(s, run[0], p, v);
      hide Next, Revives, RolledBack;
      RollbackLeavesNoConfig(Next(s, run[0]).value, run[1..], p, v);
    }
  }

  /** A destroy that goes on from start to end leaves no config and no directory at the VMID, and its finished
      target is gone. */
  lemma DestroyRemoves(s: State, d: Pid, p: Pid, v: int)
    requires d in s.procs && s.procs[d] == ConfLeft(p, v) && p in s.procs && s.procs[p] == Finished(v)
    ensures var u := Next(s, Advance(d));
            u.Some? && Next(u.value, Advance(d))
                    == Some(s.(confs := s.confs - {v}, dirs := s.dirs - {v}, procs := s.procs[d := DestroyDone][p := Gone]))
  {
    var u := Next(s, Advance(d)).value;
    assert u.procs == s.procs[d := DirLeft(p, v)] && u.procs[d := DestroyDone] == s.procs[d := DestroyDone];
  }

  // ----- a create on its own -----

  function Advances(p: Pid, n: nat): seq<Action> {
    if n == 0 then [] else [Advance(p)] + Advances(p, n - 1)
  }

  lemma OneMore(s: State, a: Action, run: seq<Action>)
    requires Next(s, a).Some? && Legal(Next(s, a).value, run)
    ensures Legal(s, [a] + run) && After(s, [a] + run) == After(Next(s, a).value, run)
  {
    hide Next;
    assert ([a] + run)[0] == a && ([a] + run)[1..] == run;
  }

  lemma MoreSteps(s: State, p: Pid, n: nat)
    requires n > 0 && Next(s, Advance(p)).Some? && Legal(Next(s, Advance(p)).value, Advances(p, n - 1))
    ensures Legal(s, Advances(p, n)) && After(s, Advances(p, n)) == After(Next(s, Advance(p)).value, Advances(p, n - 1))
  {
    hide Next;
    OneMore(s, Advance(p), Advances(p, n - 1));
  }

  /** From the choice on: the directory, the release of the lock, the config, the end. */
  lemma ChosenToFinished(s: State, p: Pid, v: int)
    requires p in s.procs && s.procs[p] == Chosen(v) && v !in s.dirs
    ensures Legal(s, Advances(p, 4))
    ensures After(s, Advances(p, 4))
         == s.(lock := None, dirs := s.dirs[v := p], confs := s.confs[v := p], procs := s.procs[p := Finished(v)])
  {
    var s1 := Next(s, Advance(p)).value;
    var s2 := Next(s1, Advance(p)).value;
    var s3 := Next(s2, Advance(p)).value;
    var s4 := Next(s3, Advance(p)).value;
    assert s4.procs == s.procs[p := Finished(v)];
    hide Next;
    assert Legal(s4, []) && After(s4, []) == s4 && Advances(p, 0) == [];
    MoreSteps(s3, p, 1);
    MoreSteps(s2, p, 2);
    MoreSteps(s1, p, 3);
    MoreSteps(s, p, 4);
  }

  /** The request is granted: none was made, or the number is in range and not in use. */
  predicate Granted(s: State, request: Option<int>) {
    request.Some? ==> request.value >= 100 && request.value !in s.dirs && request.value !in s.confs && request.value !in s.marks
  }

  lemma LockedToChosen(s: State, p: Pid, request: Option<int>)
    requires s.lock.None? && p !in s.procs && Granted(s, request)
    ensures var run := [Create(p, request)] + Advances(p, 2);
            && Legal(s, run)
            && var t := After(s, run);
               && p in t.procs && t.procs[p].Chosen?
               && var v := t.procs[p].v;
                  && v >= 100 && v !in s.dirs && v !in s.confs && v !in s.marks
                  && (request.Some? ==> v == request.value)
                  && (request.None? ==> forall u | 100 <= u < v :: u in s.dirs || u in s.confs || u in s.marks)
                  && t == s.(lock := Some(p), procs := s.procs[p := Chosen(v)])
  {
    var s0 := Next(s, Create(p, request)).value;
    var s1 := Next(s0, Advance(p)).value;
    HandedOutIsFree(s1, p);
    var s2 := Next(s1, Advance(p)).value;
    var v := s2.procs[p].v;
    assert s2.procs == s.procs[p := Chosen(v)];
    hide Next, LeastFree, Used;
    assert Legal(s2, []) && After(s2, []) == s2 && Advances(p, 0) == [];
    MoreSteps(s1, p, 1);
    MoreSteps(s0, p, 2);
    OneMore(s, Create(p, request), Advances(p, 2));
  }

  lemma {:induction false} RunsCompose(s: State, run: seq<Action>, more: seq<Action>)
    requires Legal(s, run) && Legal(After(s, run), more)
    ensures Legal(s, run + more) && After(s, run + more) == After(After(s, run), more)
    decreases |run|
  {
    hide Next;
    if run == [] {
      assert [] + more == more;
    } else {
      assert (run + more)[1..] == run[1..] + more;
      RunsCompose(Next(s, run[0]).value, run[1..], more);
    }
  }

  /** All steps of a create, one after the other, with the lock free: a granted request ends as a finished instance
      with its own directory and config at a VMID that nothing used, the one asked for or else the least. */
  lemma CreateAlone(s: State, p: Pid, request: Option<int>)
    requires s.lock.None? && p !in s.procs && Granted(s, request)
    ensures var run := [Create(p, request)] + Advances(p, 2) + Advances(p, 4);
            && Legal(s, run)
            && var t := After(s, run);
               && p in t.procs && t.procs[p].Finished?
               && var v := t.procs[p].v;
                  && v >= 100 && v !in s.dirs && v !in s.confs && v !in s.marks
                  && (request.Some? ==> v == request.value)
                  && (request.None? ==> forall u | 100 <= u < v :: u in s.dirs || u in s.confs || u in s.marks)
                  && t == s.(dirs := s.dirs[v := p], confs := s.confs[v := p], procs := s.procs[p := Finished(v)])
  {
    hide Next, Legal, After, Advances;
    LockedToChosen(s, p, request);
    var first := [Create(p, request)] + Advances(p, 2);
    var t := After(s, first);
    ChosenToFinished(t, p, t.procs[p].v);
    RunsCompose(s, first, Advances(p, 4));
    assert t.procs[p := Finished(t.procs[p].v)] == s.procs[p := Finished(t.procs[p].v)];
  }

  /** A request that is not granted ends after two steps, and nothing is left of it. */
  lemma RefusedLeavesNothing(s: State, p: Pid, request: Option<int>)
    requires s.lock.None? && p !in s.procs && !Granted(s, request)
    ensures var run := [Create(p, request)] + Advances(p, 2);
            Legal(s, run) && After(s, run) == s.(procs := s.procs[p := Gone])
  {
    var s0 := Next(s, Create(p, request)).value;
    var s1 := Next(s0, Advance(p)).value;
    var s2 := Next(s1, Advance(p)).value;
    assert s2.procs == s.procs[p := Gone];
    hide Next, LeastFree, Used;
    assert Legal(s2, []) && After(s2, []) == s2 && Advances(p, 0) == [];
    MoreSteps(s1, p, 1);
    MoreSteps(s0, p, 2);
    OneMore(s, Create(p, request), Advances(p, 2));
  }

  // ----- what a destroy astray leads to -----

  /** Two processes hold the VMID. */
  ghost predicate HeldTwice(s: State, v: int) {
    exists p, q :: p in s.procs && q in s.procs && p != q && Holds(s.procs[p], v) && Holds(s.procs[q], v)
  }

  /** Some run leads to two holders. */
  ghost predicate CanBeHeldTwice(s: State, v: int) {
    exists run :: Legal(s, run) && HeldTwice(After(s, run), v)
  }

  lemma StepToward(s: State, a: Action, v: int)
    requires Next(s, a).Some? && CanBeHeldTwice(Next(s, a).value, v)
    ensures CanBeHeldTwice(s, v)
  {
    hide Next, HeldTwice;
    var t := Next(s, a).value;
    var run :| Legal(t, run) && HeldTwice(After(t, run), v);
    var whole := [a] + run;
    assert whole[0] == a && whole[1..] == run;
    assert Legal(s, whole) && After(s, whole) == After(t, run);
  }

  lemma AlreadyThere(s: State, v: int)
    requires HeldTwice(s, v)
    ensures CanBeHeldTwice(s, v)
  {
    hide HeldTwice;
    assert Legal(s, []) && After(s, []) == s;
  }

  /** A process holds a VMID whose directory is gone. */
  ghost predicate Loose(s: State, q: Pid, v: int) {
    LockHeld(s) && q in s.procs && Holds(s.procs[q], v) && v !in s.dirs
  }

  /** How far the holder of the lock is from releasing it. */
  function Left(s: State): nat {
    if s.lock.None? || s.lock.value !in s.procs then 0
    else
      match s.procs[s.lock.value]
      case Locked(_) => 3
      case Chosen(_) => 2
      case AdoptLocked(_) => 2
      case _ => 1
  }

  /** With the lock free, the loose VMID can be asked for and is granted. */
  lemma AskedFor(s: State, q: Pid, v: int)
    requires Loose(s, q, v) && s.lock.None? && v >= FIRST_VMID
    ensures CanBeHeldTwice(s, v)
  {
    LeastFreeFacts(s.procs.Keys, 0);
    var n: Pid := LeastFree(s.procs.Keys, 0);
    hide LeastFree, CanBeHeldTwice, LockHeld;
    var s1 := Next(s, LoseConf(v)).value;
    var s2 := Next(s1, Mark({})).value;
    var s3 := Next(s2, Create(n, Some(v))).value;
    var s4 := Next(s3, Advance(n)).value;
    var s5 := Next(s4, Advance(n)).value;
    assert v !in Used(s4) && s5.procs[n] == Chosen(v);
    var s6 := Next(s5, Advance(n)).value;
    assert s6.procs[n] == Reserved(v) && s6.procs[q] == s.procs[q];
    assert HeldTwice(s6, v);
    AlreadyThere(s6, v);
    StepToward(s5, Advance(n), v);
    StepToward(s4, Advance(n), v);
    StepToward(s3, Advance(n), v);
    StepToward(s2, Create(n, Some(v)), v);
    StepToward(s1, Mark({}), v);
    StepToward(s, LoseConf(v), v);
  }

  /** The holder of the lock moves on: it takes the VMID itself, or the VMID stays loose. */
  lemma LockMoves(s: State, q: Pid, v: int)
    requires Loose(s, q, v) && s.lock.Some?
    ensures var r := s.lock.value;
            && Next(s, Advance(r)).Some?
            && var t := Next(s, Advance(r)).value;
               HeldTwice(t, v) || (Loose(t, q, v) && Left(t) < Left(s))
  {
    var r := s.lock.value;
    AdvanceKeepsLock(s, r);
    hide LeastFree, Used;
    var t := Next(s, Advance(r)).value;
    if s.procs[r] == Chosen(v) {
      assert Holds(t.procs[r], v) && Holds(t.procs[q], v);
    }
  }

  lemma {:induction false} LooseIsHeldTwice(s: State, q: Pid, v: int)
    requires Loose(s, q, v) && v >= FIRST_VMID
    ensures CanBeHeldTwice(s, v)
    decreases Left(s)
  {
    if s.lock.None? {
      AskedFor(s, q, v);
    } else {
      LockMoves(s, q, v);
      var a := Advance(s.lock.value);
      var t := Next(s, a).value;
      hide Next, Loose, HeldTwice, CanBeHeldTwice;
      if HeldTwice(t, v) {
        AlreadyThere(t, v);
      } else {
        LooseIsHeldTwice(t, q, v);
      }
      StepToward(s, a, v);
    }
  }

  /** Once a destroy has gone astray on a VMID that can be given out, two processes can come to hold it: the
      condition on runs is not only enough for unique VMIDs, it cannot be spared. */
  lemma StrayIsFatal(s: State, a: Action)
    requires Inv(s) && Stray(s, a) && s.procs[a.p].v >= FIRST_VMID
    ensures Next(s, a).Some? && CanBeHeldTwice(Next(s, a).value, s.procs[a.p].v)
  {
    var v := s.procs[a.p].v;
    var q := s.dirs[v];
    assert Holds(s.procs[q], v);
    StepKeepsLock(s, a);
    var t := Next(s, a).value;
    assert t.procs[q] == s.procs[q] && v !in t.dirs;
    hide Next, CanBeHeldTwice;
    LooseIsHeldTwice(t, q, v);
  }

  // ----- why both rules are needed -----

  /** `t` can be reached with destroys that obey the one rule. */
  ghost predicate Reaches(s: State, t: State, rule: Rule) {
    exists run :: Legal(s, run) && AllObey(s, run, rule) && After(s, run) == t
  }

  lemma {:induction false} Extends(s: State, run: seq<Action>, a: Action, rule: Rule)
    requires Legal(s, run) && AllObey(s, run, rule)
    requires Next(After(s, run), a).Some? && Obeys(After(s, run), a, rule)
    ensures Legal(s, run + [a]) && AllObey(s, run + [a], rule) && After(s, run + [a]) == Next(After(s, run), a).value
    decreases |run|
  {
    hide Next, Obeys;
    if run == [] {
      assert [] + [a] == [a] && [a][1..] == [];
    } else {
      assert (run + [a])[1..] == run[1..] + [a];
      Extends(Next(s, run[0]).value, run[1..], a, rule);
    }
  }

  lemma Go(s: State, t: State, a: Action, rule: Rule) returns (u: State)
    requires Reaches(s, t, rule) && Next(t, a).Some? && Obeys(t, a, rule)
    ensures u == Next(t, a).value && Reaches(s, u, rule)
  {
    u := Next(t, a).value;
    hide Next, Obeys;
    var run :| Legal(s, run) && AllObey(s, run, rule) && After(s, run) == t;
    Extends(s, run, a, rule);
  }

  lemma ReachesSelf(s: State, rule: Rule)
    ensures Reaches(s, s, rule)
  {
    assert Legal(s, []) && AllObey(s, [], rule) && After(s, []) == s;
  }

  /** With nothing in use, a create is handed VMID 100. */
  lemma Creates(s: State, t: State, p: Pid, rule: Rule) returns (u: State)
    requires Reaches(s, t, rule) && t.lock.None? && t.dirs == map[] && t.confs == map[] && t.marks == {} && p !in t.procs
    ensures u == State(None, map[100 := p], map[], {}, t.procs[p := Building(100)]) && Reaches(s, u, rule)
  {
    hide Reaches, Legal, After, BeingDestroyed;
    u := Go(s, t, Create(p, None), rule);
    u := Go(s, u, Advance(p), rule);
    assert Used(u) == {};
    u := Go(s, u, Advance(p), rule);
    u := Go(s, u, Advance(p), rule);
    u := Go(s, u, Advance(p), rule);
    assert u.procs == t.procs[p := Building(100)];
  }

  /** One instance at VMID 100. */
  const ONE := State(None, map[100 := 0], map[100 := 0], {}, map[0 := Finished(100)])

  const NOTHING := State(None, map[], map[], {}, map[])

  lemma FirstDestroy() returns (t: State)
    ensures Reaches(ONE, t, OfFinished)
    ensures t == State(None, map[], map[], {}, map[0 := Gone, 1 := DestroyDone, 2 := ConfLeft(0, 100)])
  {
    hide Reaches, Legal, After, BeingDestroyed;
    ReachesSelf(ONE, OfFinished);
    t := Go(ONE, ONE, Destroy(1, 0), OfFinished);
    t := Go(ONE, t, Destroy(2, 0), OfFinished);
    t := Go(ONE, t, Advance(1), OfFinished);
    t := Go(ONE, t, Advance(1), OfFinished);
    assert t.dirs == map[] && t.confs == map[];
  }

  lemma SecondDestroy() returns (t: State)
    ensures Reaches(ONE, t, OfFinished)
    ensures t == State(None, map[], map[], {}, map[0 := Gone, 1 := DestroyDone, 2 := DestroyDone, 3 := Building(100)])
  {
    hide Reaches, Legal, After, BeingDestroyed;
    t := FirstDestroy();
    t := Creates(ONE, t, 3, OfFinished);
    t := Go(ONE, t, Advance(2), OfFinished);
    t := Go(ONE, t, Advance(2), OfFinished);
    assert t.dirs == map[] && t.confs == map[];
  }

  /** Two destroys of one finished instance that overlap: the later one, going by path, takes away the directory
      of a create that got the VMID in between, and the next create gets the same VMID. */
  lemma OverlappingDestroys()
    ensures AtRest(ONE)
    ensures exists t :: Reaches(ONE, t, OfFinished) && HeldTwice(t, 100)
  {
    var t := SecondDestroy();
    hide Reaches;
    t := Creates(ONE, t, 4, OfFinished);
    assert Holds(t.procs[3], 100) && Holds(t.procs[4], 100);
  }

  lemma DestroyedEarly() returns (t: State)
    ensures Reaches(NOTHING, t, OneAtATime)
    ensures t == State(None, map[], map[], {}, map[0 := Building(100), 1 := DestroyDone])
  {
    ReachesSelf(NOTHING, OneAtATime);
    hide Reaches, Legal, After;
    t := Creates(NOTHING, NOTHING, 0, OneAtATime);
    t := Go(NOTHING, t, Destroy(1, 0), OneAtATime);
    t := Go(NOTHING, t, Advance(1), OneAtATime);
    t := Go(NOTHING, t, Advance(1), OneAtATime);
    assert t.dirs == map[] && t.confs == map[];
  }

  /** A single destroy of an instance whose create is still running: the create goes on without its directory,
      and the next create gets the same VMID. */
  lemma UnfinishedDestroy()
    ensures AtRest(NOTHING)
    ensures exists t :: Reaches(NOTHING, t, OneAtATime) && HeldTwice(t, 100)
  {
    var t := DestroyedEarly();
    hide Reaches;
    t := Creates(NOTHING, t, 2, OneAtATime);
    assert Holds(t.procs[0], 100) && Holds(t.procs[2], 100);
  }
}
