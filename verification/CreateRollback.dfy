/** The undo list of `create` (`create.py`): whatever step fails after the instance directory is made, the
    registered undos run last pushed first. */
module CreateRollback {
  import opened Modes

  /** What a create can leave on the host. */
  datatype Key =
    | Dir(path: string) | Hold(name: string) | LxcWrapper(vmid: int) | VmWrapper(vmid: int)
    | PveConf(vmid: int) | QmConf(vmid: int) | Up(mode: Mode, id: string)

  /** Everything of interest on the host, with its contents as the list of what was written into it. */
  type World = map<Key, seq<string>>

  datatype Write = ToContainer(text: string) | ToState(text: string)

  /** `containerDir` is the instance directory; `stateDir` may be that directory or lie elsewhere. `metadata` lists
      the writes into either of the two that the options ask for. */
  datatype Args = Args(mode: Mode, name: string, vmid: int, id: string, containerDir: string, stateDir: string,
                       isUrl: bool, snippets: bool, unprivileged: bool, start: bool, metadata: seq<Write>)

  function Target(a: Args, w: Write): Key {
    if w.ToContainer? then Dir(a.containerDir) else Dir(a.stateDir)
  }

  // ----- undos -----

  /** Each registered undo takes one thing away; the undo of a start stops the instance. */
  type Undo = Key

  /** What a list of undos leaves, last pushed first. */
  function Unwound(w: World, undos: seq<Undo>): World {
    if undos == [] then w else Unwound(w - {undos[|undos| - 1]}, undos[..|undos| - 1])
  }

  predicate Same(a: World, b: World, k: Key) {
    (k in a <==> k in b) && (k in a ==> a[k] == b[k])
  }

  lemma {:induction false} UnwoundFacts(w: World, undos: seq<Undo>, k: Key)
    ensures k in undos ==> k !in Unwound(w, undos)
    ensures k !in undos ==> Same(Unwound(w, undos), w, k)
  {
    if undos == [] {
    } else {
      var n := |undos| - 1;
      UnwoundFacts(w - {undos[n]}, undos[..n], k);
      assert undos == undos[..n] + [undos[n]];
      if k in undos && k !in undos[..n] {
        assert k == undos[n] && k !in w - {undos[n]};
      }
    }
  }

  // ----- the steps -----

  /** A hookscript wrapper is written for pve-vm, and for pve-lxc when snippets storage was looked up. */
  predicate HasWrapper(a: Args) {
    a.mode == PveVm || (a.mode == Pve && a.snippets)
  }

  function HookStep(a: Args): nat {
    4 + |a.metadata|
  }

  /** What is written into the instance directory before the wrapper: plain VMs have no hook. */
  function Scripts(a: Args): seq<string> {
    if a.mode == Vm then ["inject"] else ["hook", "inject"]
  }

  /** What is written into the instance directory between wrapper and config. */
  function Late(a: Args): seq<string> {
    if a.mode == PveVm then ["kento-vmid"] else if a.mode == Pve && a.unprivileged then ["kento-idmap-range"] else []
  }

  function WrapperStep(a: Args): nat {
    HookStep(a) + |Scripts(a)|
  }

  function LateStep(a: Args): nat {
    WrapperStep(a) + if HasWrapper(a) then 1 else 0
  }

  function ConfStep(a: Args): nat {
    LateStep(a) + |Late(a)|
  }

  /** Plain VMs have no config. */
  function BootStep(a: Args): nat {
    ConfStep(a) + if a.mode == Vm then 0 else 1
  }

  /** All the steps that can fail, in their order: hold or rootfs, state directory, its subdirectories, byte
      check, metadata, scripts, wrapper, late metadata, config, start. */
  function Steps(a: Args): nat {
    BootStep(a) + if a.start then 1 else 0
  }

  /** How many steps are done when the step numbered `failing` fails; all of them when there is no such step. */
  function DoneBefore(a: Args, failing: int): nat {
    if 0 <= failing < Steps(a) then failing else Steps(a)
  }

  /** What a create with these options may register besides the instance directory. */
  predicate Registrable(a: Args, k: Key) {
    match k
    case Dir(path) => path == a.stateDir && path != a.containerDir
    case Hold(name) => !a.isUrl && name == a.name
    case LxcWrapper(v) => a.mode == Pve && a.snippets && v == a.vmid
    case VmWrapper(v) => a.mode == PveVm && v == a.vmid
    case PveConf(v) => a.mode == Pve && v == a.vmid
    case QmConf(v) => a.mode == PveVm && v == a.vmid
    case Up(mode, id) => a.start && mode == a.mode && id == a.id
  }

  /** The step after which it is registered. */
  function StepOf(a: Args, k: Key): nat {
    match k
    case Hold(_) => 0
    case Dir(_) => 1
    case LxcWrapper(_) => WrapperStep(a)
    case VmWrapper(_) => WrapperStep(a)
    case _ => ConfStep(a)
  }

  /** The state directory was there before and is not the instance's own. */
  predicate ForeignState(a: Args, w: World) {
    a.stateDir != a.containerDir && Dir(a.stateDir) in w
  }

  /** `mkdir(exist_ok=True)` of the two subdirectories. */
  function Missing(contents: seq<string>): seq<string> {
    (if "upper" in contents then [] else ["upper"]) + (if "work" in contents then [] else ["work"])
  }

  /** The first `n` steps write into a state directory that was there before. */
  predicate Touched(a: Args, w: World, n: nat) {
    && ForeignState(a, w)
    && ((n > 2 && Missing(w[Dir(a.stateDir)]) != [])
        || exists i | 0 <= i < |a.metadata| :: 4 + i < n && a.metadata[i].ToState?)
  }

  /** Nothing that the first `n` steps register was there before, nor anything they write into. */
  predicate Spared(a: Args, w: World, n: nat) {
    && (!a.isUrl && n > 0 ==> Hold(a.name) !in w)
    && !Touched(a, w, n)
    && (a.mode == PveVm && n > WrapperStep(a) ==> VmWrapper(a.vmid) !in w)
    && (a.mode == Pve && a.snippets && n > WrapperStep(a) ==> LxcWrapper(a.vmid) !in w)
    && (a.mode == PveVm && n > ConfStep(a) ==> QmConf(a.vmid) !in w)
    && (a.mode == Pve && n > ConfStep(a) ==> PveConf(a.vmid) !in w)
    && (a.start && n >= BootStep(a) ==> Up(a.mode, a.id) !in w)
  }

  /** `now` differs from `before` only in what the undos take away, and in what was added to a state
      directory that was already there. */
  ghost predicate Covered(a: Args, before: World, now: World, undos: seq<Undo>) {
    && undos != [] && undos[0] == Dir(a.containerDir) && Dir(a.containerDir) in now
    && (forall i | 0 < i < |undos| :: undos[i] != Dir(a.containerDir) && Registrable(a, undos[i]))
    && (forall k | k in undos :: k in now || k.Up?)
    && (forall k | k !in undos && !(ForeignState(a, before) && k == Dir(a.stateDir)) :: Same(now, before, k))
    && (ForeignState(a, before) ==> Dir(a.stateDir) in now && before[Dir(a.stateDir)] <= now[Dir(a.stateDir)]
                                    && Dir(a.stateDir) !in undos)
  }

  /** The undos are those of the first `n` steps; the stop of a started instance is not counted here. */
  ghost predicate Registered(a: Args, before: World, undos: seq<Undo>, n: nat) {
    forall k | Registrable(a, k) && !k.Up? :: k in undos <==> StepOf(a, k) < n && !(ForeignState(a, before) && k == Dir(a.stateDir))
  }

  /** A state directory that was there has grown exactly when the first `n` steps write into it. */
  ghost predicate Grown(a: Args, before: World, now: World, n: nat) {
    ForeignState(a, before) ==>
      && Dir(a.stateDir) in now
      && before[Dir(a.stateDir)] <= now[Dir(a.stateDir)]
      && (now[Dir(a.stateDir)] != before[Dir(a.stateDir)] <==> Touched(a, before, n))
  }

  ghost predicate Inv(a: Args, before: World, now: World, undos: seq<Undo>, n: nat) {
    Covered(a, before, now, undos) && Registered(a, before, undos, n) && Grown(a, before, now, n)
  }

  lemma Reserved(a: Args, before: World, now: World)
    requires Dir(a.containerDir) !in before && now == before[Dir(a.containerDir) := []]
    ensures Inv(a, before, now, [Dir(a.containerDir)], 0)
  {
  }

  /** A step that writes into the instance directory or the state directory. */
  lemma AppendStep(a: Args, before: World, now: World, undos: seq<Undo>, n: nat, k: Key, more: seq<string>)
    requires Covered(a, before, now, undos) && Grown(a, before, now, n) && k in now
    requires k == Dir(a.containerDir) || (k == Dir(a.stateDir) && (k in undos || ForeignState(a, before)))
    requires Touched(a, before, n + 1) <==> Touched(a, before, n) || (ForeignState(a, before) && k == Dir(a.stateDir) && more != [])
    ensures Covered(a, before, now[k := now[k] + more], undos) && Grown(a, before, now[k := now[k] + more], n + 1)
  {
    hide Registrable, Touched;
  }

  /** A step that leaves both directories as they are. */
  lemma GrownSame(a: Args, before: World, now: World, next: World, n: nat)
    requires Grown(a, before, now, n) && (Touched(a, before, n + 1) <==> Touched(a, before, n))
    requires ForeignState(a, before) ==> Same(next, now, Dir(a.stateDir))
    ensures Grown(a, before, next, n + 1)
  {
    hide Touched;
  }

  /** Past the step that makes it, the state directory can be written into. */
  lemma StateReady(a: Args, before: World, now: World, undos: seq<Undo>, n: nat)
    requires Covered(a, before, now, undos) && Registered(a, before, undos, n) && n > 1
    ensures Dir(a.stateDir) in now
    ensures a.stateDir == a.containerDir || Dir(a.stateDir) in undos || ForeignState(a, before)
  {
    if a.stateDir != a.containerDir && !ForeignState(a, before) {
      assert Registrable(a, Dir(a.stateDir));
    }
  }

  /** A step that makes something of its own and registers it. */
  lemma PutStep(a: Args, before: World, now: World, undos: seq<Undo>, k: Key, contents: seq<string>)
    requires Covered(a, before, now, undos) && Registrable(a, k) && !(ForeignState(a, before) && k == Dir(a.stateDir))
    ensures Covered(a, before, now[k := contents], undos + [k])
  {
  }

  /** A step that registers an undo for something already there. */
  lemma PushStep(a: Args, before: World, now: World, undos: seq<Undo>, k: Key)
    requires Covered(a, before, now, undos) && Registrable(a, k) && !(ForeignState(a, before) && k == Dir(a.stateDir))
    requires k in now || k.Up?
    ensures Covered(a, before, now, undos + [k])
  {
  }

  /** The undo of the step is pushed: those of one step more are registered. */
  lemma RegisteredPush(a: Args, before: World, undos: seq<Undo>, n: nat, k: Key)
    requires Registered(a, before, undos, n) && Registrable(a, k) && !k.Up? && StepOf(a, k) == n
    requires !(ForeignState(a, before) && k == Dir(a.stateDir))
    ensures Registered(a, before, undos + [k], n + 1)
  {
  }

  /** No undo is due at this step. */
  lemma RegisteredSame(a: Args, before: World, undos: seq<Undo>, n: nat)
    requires Registered(a, before, undos, n)
    requires forall k | Registrable(a, k) && !k.Up? && StepOf(a, k) == n :: ForeignState(a, before) && k == Dir(a.stateDir)
    ensures Registered(a, before, undos, n + 1)
  {
    hide Registrable, StepOf, ForeignState;
  }

  lemma RegisteredUrl(a: Args, before: World, undos: seq<Undo>)
    requires a.isUrl && Registered(a, before, undos, 0)
    ensures Registered(a, before, undos, 1)
  {
    RegisteredSame(a, before, undos, 0);
  }

  lemma HoldRegistered(a: Args, before: World, undos: seq<Undo>)
    requires !a.isUrl && Registered(a, before, undos, 0)
    ensures Registrable(a, Hold(a.name)) && Registered(a, before, undos + [Hold(a.name)], 1)
  {
    RegisteredPush(a, before, undos, 0, Hold(a.name));
  }

  lemma StateRegistered(a: Args, before: World, now: World, undos: seq<Undo>)
    requires Covered(a, before, now, undos) && Registered(a, before, undos, 1) && Dir(a.stateDir) !in now
    ensures Registrable(a, Dir(a.stateDir)) && !ForeignState(a, before)
    ensures Registered(a, before, undos + [Dir(a.stateDir)], 2)
  {
    RegisteredPush(a, before, undos, 1, Dir(a.stateDir));
  }

  lemma StateThere(a: Args, before: World, now: World, undos: seq<Undo>)
    requires Covered(a, before, now, undos) && Registered(a, before, undos, 1) && Dir(a.stateDir) in now
    ensures Registered(a, before, undos, 2)
  {
    assert Dir(a.stateDir) !in undos || a.stateDir == a.containerDir;
    assert a.stateDir != a.containerDir ==> ForeignState(a, before) || Same(now, before, Dir(a.stateDir));
    RegisteredSame(a, before, undos, 1);
  }

  lemma SubdirStep(a: Args, before: World, now: World, undos: seq<Undo>)
    requires Inv(a, before, now, undos, 2) && Dir(a.stateDir) in now
    requires a.stateDir == a.containerDir || Dir(a.stateDir) in undos || ForeignState(a, before)
    ensures Inv(a, before, now[Dir(a.stateDir) := now[Dir(a.stateDir)] + Missing(now[Dir(a.stateDir)])], undos, 3)
  {
    AppendStep(a, before, now, undos, 2, Dir(a.stateDir), Missing(now[Dir(a.stateDir)]));
    RegisteredSame(a, before, undos, 2);
  }

  /** A step at which nothing is registered and nothing written. */
  lemma QuietStep(a: Args, before: World, now: World, undos: seq<Undo>, n: nat)
    requires Inv(a, before, now, undos, n) && (n == 3 || n >= BootStep(a))
    ensures Inv(a, before, now, undos, n + 1)
  {
    RegisteredSame(a, before, undos, n);
    GrownSame(a, before, now, now, n);
  }

  lemma TouchedNext(a: Args, w: World, i: nat)
    requires i < |a.metadata|
    ensures Touched(a, w, 5 + i) <==> Touched(a, w, 4 + i) || (ForeignState(a, w) && a.metadata[i].ToState?)
  {
  }

  /** One metadata file. */
  lemma MetadataStep(a: Args, before: World, now: World, undos: seq<Undo>, i: nat)
    requires i < |a.metadata| && Inv(a, before, now, undos, 4 + i)
    ensures Target(a, a.metadata[i]) in now
    ensures Inv(a, before, now[Target(a, a.metadata[i]) := now[Target(a, a.metadata[i])] + [a.metadata[i].text]], undos, 5 + i)
  {
    StateReady(a, before, now, undos, 4 + i);
    RegisteredSame(a, before, undos, 4 + i);
    TouchedNext(a, before, i);
    hide Registered, Touched;
    AppendStep(a, before, now, undos, 4 + i, Target(a, a.metadata[i]), [a.metadata[i].text]);
  }

  /** A step that writes into the instance directory: a script, a late metadata file, the config of plain LXC. */
  predicate IsLocal(a: Args, n: nat) {
    || HookStep(a) <= n < WrapperStep(a)
    || LateStep(a) <= n < ConfStep(a)
    || (n == ConfStep(a) && a.mode == Lxc)
  }

  predicate AllLocal(a: Args, first: nat, end: nat) {
    forall n | first <= n < end :: IsLocal(a, n)
  }

  lemma LocalStep(a: Args, before: World, now: World, undos: seq<Undo>, n: nat, text: string)
    requires Inv(a, before, now, undos, n) && IsLocal(a, n)
    ensures Inv(a, before, now[Dir(a.containerDir) := now[Dir(a.containerDir)] + [text]], undos, n + 1)
  {
    RegisteredSame(a, before, undos, n);
    AppendStep(a, before, now, undos, n, Dir(a.containerDir), [text]);
  }

  /** The wrapper, and the config of the modes that keep it elsewhere. */
  lemma OwnStep(a: Args, before: World, now: World, undos: seq<Undo>, k: Key, text: string)
    requires Inv(a, before, now, undos, StepOf(a, k)) && Registrable(a, k) && StepOf(a, k) > HookStep(a) && !k.Up?
    ensures Inv(a, before, now[k := [text]], undos + [k], StepOf(a, k) + 1)
  {
    RegisteredPush(a, before, undos, StepOf(a, k), k);
    PutStep(a, before, now, undos, k, [text]);
    GrownSame(a, before, now, now[k := [text]], StepOf(a, k));
  }

  /** The undo of the start counts at no step. */
  lemma UpRegistered(a: Args, before: World, now: World, undos: seq<Undo>, n: nat)
    requires Inv(a, before, now, undos, n) && a.start
    ensures Inv(a, before, now, undos + [Up(a.mode, a.id)], n)
  {
    PushStep(a, before, now, undos, Up(a.mode, a.id));
  }

  /** What runs under a registered stop does not matter to the rest. */
  lemma UpStep(a: Args, before: World, now: World, undos: seq<Undo>, n: nat)
    requires Inv(a, before, now, undos, n) && Up(a.mode, a.id) in undos
    ensures Inv(a, before, now[Up(a.mode, a.id) := []], undos, n)
  {
    hide Registrable, StepOf, Touched;
  }

  // ----- what a rollback leaves -----

  lemma SameEverywhere(a: World, b: World)
    requires forall k :: Same(a, b, k)
    ensures a == b
  {
    forall k ensures k in a <==> k in b {
      assert Same(a, b, k);
    }
    forall k | k in a ensures a[k] == b[k] {
      assert Same(a, b, k);
    }
  }

  /** The rollback restores exactly when nothing it takes away was there before and nothing was added to a
      state directory that was. */
  lemma RolledBack(a: Args, before: World, now: World, undos: seq<Undo>)
    requires Covered(a, before, now, undos) && Dir(a.containerDir) !in before
    ensures Unwound(now, undos) == before
       <==> (forall k | k in undos :: k !in before)
            && (ForeignState(a, before) ==> now[Dir(a.stateDir)] == before[Dir(a.stateDir)])
  {
    var end := Unwound(now, undos);
    forall k ensures k in undos ==> k !in end ensures k !in undos ==> Same(end, now, k) {
      UnwoundFacts(now, undos, k);
    }
    hide Unwound, Registrable;
    if (forall k | k in undos :: k !in before) && (ForeignState(a, before) ==> now[Dir(a.stateDir)] == before[Dir(a.stateDir)]) {
      forall k ensures Same(end, before, k) {
        if k in undos {
        } else if ForeignState(a, before) && k == Dir(a.stateDir) {
          assert Same(end, now, k);
        } else {
          assert Same(end, now, k) && Same(now, before, k);
        }
      }
      SameEverywhere(end, before);
    } else if k :| k in undos && k in before {
      assert k !in end;
    } else {
      assert Same(end, now, Dir(a.stateDir));
    }
  }

  lemma SparedIsFresh(a: Args, before: World, now: World, undos: seq<Undo>, n: nat)
    requires Inv(a, before, now, undos, n) && Dir(a.containerDir) !in before && Spared(a, before, n)
    requires Up(a.mode, a.id) in undos <==> a.start && n >= BootStep(a)
    ensures forall k | k in undos :: k !in before
    ensures ForeignState(a, before) ==> now[Dir(a.stateDir)] == before[Dir(a.stateDir)]
  {
    forall k | k in undos ensures k !in before {
      if k != Dir(a.containerDir) {
        assert Registrable(a, k);
        assert !k.Up? ==> StepOf(a, k) < n;
      }
    }
  }

  lemma NotSpared(a: Args, before: World, now: World, undos: seq<Undo>, n: nat)
    requires Inv(a, before, now, undos, n) && !Spared(a, before, n)
    requires Up(a.mode, a.id) in undos <==> a.start && n >= BootStep(a)
    ensures (exists k :: k in undos && k in before)
         || (ForeignState(a, before) && now[Dir(a.stateDir)] != before[Dir(a.stateDir)])
  {
    if !a.isUrl && n > 0 && Hold(a.name) in before {
      assert Registrable(a, Hold(a.name)) && Hold(a.name) in undos;
    } else if Touched(a, before, n) {
    } else if n >= BootStep(a) && a.start && Up(a.mode, a.id) in before {
      assert Up(a.mode, a.id) in undos;
    } else {
      assert Registrable(a, VmWrapper(a.vmid)) || Registrable(a, LxcWrapper(a.vmid)) || a.mode == Pve;
      assert Registrable(a, VmWrapper(a.vmid)) && n > WrapperStep(a) ==> VmWrapper(a.vmid) in undos;
      assert Registrable(a, LxcWrapper(a.vmid)) && n > WrapperStep(a) ==> LxcWrapper(a.vmid) in undos;
      assert Registrable(a, QmConf(a.vmid)) && n > ConfStep(a) ==> QmConf(a.vmid) in undos;
      assert Registrable(a, PveConf(a.vmid)) && n > ConfStep(a) ==> PveConf(a.vmid) in undos;
    }
  }

  /** The same in terms of the steps done. */
  lemma RolledBackExactly(a: Args, before: World, now: World, undos: seq<Undo>, n: nat)
    requires Inv(a, before, now, undos, n) && Dir(a.containerDir) !in before
    requires Up(a.mode, a.id) in undos <==> a.start && n >= BootStep(a)
    ensures Unwound(now, undos) == before <==> Spared(a, before, n)
  {
    RolledBack(a, before, now, undos);
    hide Unwound;
    if Spared(a, before, n) {
      SparedIsFresh(a, before, now, undos, n);
    } else {
      NotSpared(a, before, now, undos, n);
    }
  }

  // ----- success -----

  predicate Has(w: World, k: Key, text: string) {
    k in w && text in w[k]
  }

  /** A rootfs from a URL is in the instance directory. */
  predicate Base(a: Args, w: World) {
    a.isUrl ==> Has(w, Dir(a.containerDir), "rootfs-base")
  }

  predicate Subdirs(a: Args, w: World) {
    Has(w, Dir(a.stateDir), "upper") && Has(w, Dir(a.stateDir), "work")
  }

  predicate Metadata(a: Args, w: World, count: nat) {
    forall i | 0 <= i < |a.metadata| && i < count :: Has(w, Target(a, a.metadata[i]), a.metadata[i].text)
  }

  /** The instance directory has all of these. */
  predicate AllThere(a: Args, w: World, texts: seq<string>) {
    forall i | 0 <= i < |texts| :: Has(w, Dir(a.containerDir), texts[i])
  }

  predicate Configured(a: Args, w: World) {
    && AllThere(a, w, Scripts(a)) && AllThere(a, w, Late(a))
    && (a.mode == Lxc ==> Has(w, Dir(a.containerDir), "config"))
  }

  /** No directory lost anything. */
  predicate Extends(now: World, w: World) {
    forall k | k in w && k.Dir? :: k in now && w[k] <= now[k]
  }

  lemma ThereStill(a: Args, now: World, w: World, texts: seq<string>)
    requires Extends(now, w)
    ensures AllThere(a, w, texts) ==> AllThere(a, now, texts)
  {
  }

  lemma ExtendsOn(now: World, between: World, w: World)
    requires Extends(now, between) && Extends(between, w)
    ensures Extends(now, w)
  {
  }

  lemma StillThere(a: Args, now: World, w: World)
    requires Extends(now, w)
    ensures Base(a, w) ==> Base(a, now)
    ensures Subdirs(a, w) ==> Subdirs(a, now)
    ensures Metadata(a, w, |a.metadata|) ==> Metadata(a, now, |a.metadata|)
    ensures Configured(a, w) ==> Configured(a, now)
  {
    ThereStill(a, now, w, Scripts(a));
    ThereStill(a, now, w, Late(a));
    hide AllThere;
  }

  /** Everything the options ask for is there, and nothing else has changed. */
  ghost predicate Installed(a: Args, before: World, now: World) {
    && Base(a, now) && Subdirs(a, now) && Metadata(a, now, |a.metadata|) && Configured(a, now)
    && (forall k | Registrable(a, k) :: k in now)
    && (forall k | !Registrable(a, k) && k != Dir(a.containerDir) && k != Dir(a.stateDir) :: Same(now, before, k))
  }

  /** Mode by mode: what a finished create has left, and that the other modes' files are as they were. */
  lemma InstalledMeans(a: Args, before: World, now: World)
    requires Installed(a, before, now)
    ensures Has(now, Dir(a.containerDir), "inject") && (a.mode != Vm ==> Has(now, Dir(a.containerDir), "hook"))
    ensures a.mode == PveVm ==> Has(now, Dir(a.containerDir), "kento-vmid")
    ensures a.mode == Pve && a.unprivileged ==> Has(now, Dir(a.containerDir), "kento-idmap-range")
    ensures if a.isUrl then Has(now, Dir(a.containerDir), "rootfs-base") && Same(now, before, Hold(a.name)) else Hold(a.name) in now
    ensures a.mode == Lxc ==> Has(now, Dir(a.containerDir), "config")
    ensures if a.mode == Pve then PveConf(a.vmid) in now else Same(now, before, PveConf(a.vmid))
    ensures if a.mode == PveVm then QmConf(a.vmid) in now && VmWrapper(a.vmid) in now
            else Same(now, before, QmConf(a.vmid)) && Same(now, before, VmWrapper(a.vmid))
    ensures if a.mode == Pve && a.snippets then LxcWrapper(a.vmid) in now else Same(now, before, LxcWrapper(a.vmid))
    ensures if a.start then Up(a.mode, a.id) in now else Same(now, before, Up(a.mode, a.id))
  {
    hide Has, Same;
    var scripts, late := Scripts(a), Late(a);
    assert scripts[|scripts| - 1] == "inject" && (a.mode != Vm ==> scripts[0] == "hook");
    assert a.mode == PveVm ==> late[0] == "kento-vmid";
    assert a.mode == Pve && a.unprivileged ==> late[0] == "kento-idmap-range";
  }

  lemma InstalledAtEnd(a: Args, before: World, now: World, undos: seq<Undo>)
    requires Inv(a, before, now, undos, Steps(a)) && (a.start ==> Up(a.mode, a.id) in now)
    requires Base(a, now) && Subdirs(a, now) && Metadata(a, now, |a.metadata|) && Configured(a, now)
    ensures Installed(a, before, now)
  {
    StateReady(a, before, now, undos, Steps(a));
    forall k | Registrable(a, k) ensures k in now {
      assert !k.Up? ==> StepOf(a, k) < Steps(a);
    }
  }

  lemma ContainerThere(a: Args, before: World, now: World, undos: seq<Undo>, n: nat)
    requires Inv(a, before, now, undos, n)
    ensures undos != [] && undos[0] == Dir(a.containerDir) && Dir(a.containerDir) in now
    ensures forall i | 0 < i < |undos| :: undos[i] != Dir(a.containerDir)
  {
  }

  class Host {
    var world: World

    constructor (world: World)
      ensures this.world == world
    {
      this.world := world;
    }

    /** Writes into a directory that is there. */
    method Append(k: Key, more: seq<string>)
      requires k in world
      modifies this
      ensures world == old(world)[k := old(world)[k] + more]
    {
      world := world[k := world[k] + more];
    }

    method Put(k: Key, contents: seq<string>)
      modifies this
      ensures world == old(world)[k := contents]
    {
      world := world[k := contents];
    }

    /** `_run_cleanup`. `order` is the order in which the undos ran, `worlds` what each of them found. */
    method RunCleanup(undos: seq<Undo>) returns (ghost order: seq<Undo>, ghost worlds: seq<World>)
      modifies this
      ensures world == Unwound(old(world), undos)
      ensures |order| == |worlds| == |undos| && forall i | 0 <= i < |undos| :: order[i] == undos[|undos| - 1 - i]
      ensures forall i, k | 0 <= i < |undos| && k in old(world) && (forall j | |undos| - i <= j < |undos| :: undos[j] != k)
                :: k in worlds[i]
    {
      var left := undos;
      order, worlds := [], [];
      while left != []
        invariant left == undos[..|left|]
        invariant Unwound(world, left) == Unwound(old(world), undos)
        invariant |order| == |worlds| == |undos| - |left|
        invariant forall i | 0 <= i < |order| :: order[i] == undos[|undos| - 1 - i]
        invariant forall k | k in old(world) && (forall j | |left| <= j < |undos| :: undos[j] != k) :: k in world
        invariant forall i, k | 0 <= i < |worlds| && k in old(world) && (forall j | |undos| - i <= j < |undos| :: undos[j] != k)
                    :: k in worlds[i]
        decreases |left|
      {
        var n := |left| - 1;
        var undo := left[n];
        order, worlds := order + [undo], worlds + [world];
        left := left[..n];
        world := world - {undo};
      }
    }

    /** The image hold or the fetched rootfs. A hold of the same name is left as it is, and its undo is
        registered all the same. */
    method Pin(a: Args, known: seq<Undo>, failing: int, ghost before: World) returns (done: bool, undos: seq<Undo>)
      requires Inv(a, before, world, known, 0) && Up(a.mode, a.id) !in known
      modifies this
      ensures done <==> failing != 0
      ensures Inv(a, before, world, undos, if done then 1 else 0) && Up(a.mode, a.id) !in undos
      ensures done ==> Base(a, world)
    {
      undos, done := known, failing != 0;
      if !done {
        return;
      }
      hide Registrable, StepOf;
      if a.isUrl {
        RegisteredUrl(a, before, undos);
        AppendStep(a, before, world, undos, 0, Dir(a.containerDir), ["rootfs-base"]);
        Append(Dir(a.containerDir), ["rootfs-base"]);
      } else {
        var hold := Hold(a.name);
        HoldRegistered(a, before, undos);
        ghost var was := world;
        if hold !in world {
          PutStep(a, before, world, undos, hold, ["pin"]);
          Put(hold, ["pin"]);
        } else {
          PushStep(a, before, world, undos, hold);
        }
        GrownSame(a, before, was, world, 0);
        undos := undos + [hold];
      }
    }

    /** The state directory, registered when it was not there before, its two subdirectories, and the byte check. */
    method OpenState(a: Args, known: seq<Undo>, failing: int, ghost before: World) returns (done: bool, undos: seq<Undo>)
      requires Inv(a, before, world, known, 1) && Up(a.mode, a.id) !in known
      modifies this
      ensures done <==> !(1 <= failing < 4)
      ensures Inv(a, before, world, undos, if done then 4 else failing) && Up(a.mode, a.id) !in undos
      ensures Extends(world, old(world)) && (done ==> Subdirs(a, world))
    {
      undos, done := known, false;
      if failing == 1 {
        return;
      }
      var k := Dir(a.stateDir);
      ghost var was := world;
      if k !in world {
        StateRegistered(a, before, world, undos);
        PutStep(a, before, world, undos, k, []);
        Put(k, []);
        undos := undos + [k];
      } else {
        StateThere(a, before, world, undos);
      }
      GrownSame(a, before, was, world, 1);
      hide Covered, Registered, Grown;
      if failing == 2 {
        return;
      }
      StateReady(a, before, world, undos, 2);
      SubdirStep(a, before, world, undos);
      Append(k, Missing(world[k]));
      if failing == 3 {
        return;
      }
      QuietStep(a, before, world, undos, 3);
      done := true;
    }

    /** Everything up to the byte check. */
    method Prepare(a: Args, known: seq<Undo>, failing: int, ghost before: World) returns (done: bool, undos: seq<Undo>)
      requires Inv(a, before, world, known, 0) && Up(a.mode, a.id) !in known
      modifies this
      ensures done <==> !(0 <= failing < 4)
      ensures Inv(a, before, world, undos, if done then 4 else failing) && Up(a.mode, a.id) !in undos
      ensures done ==> Base(a, world) && Subdirs(a, world)
    {
      hide Inv, Base, Subdirs, Extends;
      done, undos := Pin(a, known, failing, before);
      if done {
        ghost var pinned := world;
        done, undos := OpenState(a, undos, failing, before);
        StillThere(a, world, pinned);
      }
    }

    /** The metadata files of the two directories. */
    method Record(a: Args, undos: seq<Undo>, failing: int, ghost before: World) returns (done: bool)
      requires Inv(a, before, world, undos, 4)
      modifies this
      ensures done <==> !(4 <= failing < HookStep(a))
      ensures Inv(a, before, world, undos, if done then HookStep(a) else failing)
      ensures Extends(world, old(world)) && (done ==> Metadata(a, world, |a.metadata|))
    {
      hide Inv;
      for i := 0 to |a.metadata|
        invariant Inv(a, before, world, undos, 4 + i)
        invariant !(4 <= failing < 4 + i)
        invariant Extends(world, old(world)) && Metadata(a, world, i)
      {
        if failing == 4 + i {
          return false;
        }
        MetadataStep(a, before, world, undos, i);
        Append(Target(a, a.metadata[i]), [a.metadata[i].text]);
      }
      done := true;
    }

    /** Writes into the instance directory, one after the other. */
    method WriteLocal(a: Args, undos: seq<Undo>, texts: seq<string>, first: nat, failing: int, ghost before: World) returns (done: bool)
      requires Inv(a, before, world, undos, first)
      requires AllLocal(a, first, first + |texts|)
      modifies this
      ensures done <==> !(first <= failing < first + |texts|)
      ensures Inv(a, before, world, undos, if done then first + |texts| else failing)
      ensures Extends(world, old(world)) && (done ==> AllThere(a, world, texts))
    {
      hide Inv, IsLocal;
      for i := 0 to |texts|
        invariant Inv(a, before, world, undos, first + i)
        invariant !(first <= failing < first + i)
        invariant Extends(world, old(world)) && AllThere(a, world, texts[..i])
      {
        if failing == first + i {
          return false;
        }
        ContainerThere(a, before, world, undos, first + i);
        LocalStep(a, before, world, undos, first + i, texts[i]);
        Append(Dir(a.containerDir), [texts[i]]);
      }
      assert texts[..|texts|] == texts;
      done := true;
    }

    /** The config, in the instance directory or among those of the Proxmox node; plain VMs have none. */
    method WriteConfig(a: Args, known: seq<Undo>, failing: int, ghost before: World) returns (done: bool, undos: seq<Undo>)
      requires Inv(a, before, world, known, ConfStep(a)) && Up(a.mode, a.id) !in known
      modifies this
      ensures done <==> !(a.mode != Vm && failing == ConfStep(a))
      ensures Inv(a, before, world, undos, if done then BootStep(a) else failing) && Up(a.mode, a.id) !in undos
      ensures Extends(world, old(world)) && (done && a.mode == Lxc ==> Has(world, Dir(a.containerDir), "config"))
    {
      undos, done := known, a.mode == Vm || failing != ConfStep(a);
      if !done || a.mode == Vm {
        return;
      }
      if a.mode == Lxc {
        ContainerThere(a, before, world, undos, ConfStep(a));
        LocalStep(a, before, world, undos, ConfStep(a), "config");
        hide Inv;
        Append(Dir(a.containerDir), ["config"]);
      } else {
        var conf := if a.mode == PveVm then QmConf(a.vmid) else PveConf(a.vmid);
        OwnStep(a, before, world, undos, conf, "config");
        hide Inv;
        Put(conf, ["config"]);
        undos := undos + [conf];
      }
    }

    /** The wrapper where the mode has one. */
    method WriteWrapper(a: Args, known: seq<Undo>, failing: int, ghost before: World) returns (done: bool, undos: seq<Undo>)
      requires Inv(a, before, world, known, WrapperStep(a)) && Up(a.mode, a.id) !in known
      modifies this
      ensures done <==> !(HasWrapper(a) && failing == WrapperStep(a))
      ensures Inv(a, before, world, undos, if done then LateStep(a) else failing) && Up(a.mode, a.id) !in undos
      ensures Extends(world, old(world))
    {
      undos, done := known, !HasWrapper(a) || failing != WrapperStep(a);
      if !done || !HasWrapper(a) {
        return;
      }
      var wrapper := if a.mode == PveVm then VmWrapper(a.vmid) else LxcWrapper(a.vmid);
      OwnStep(a, before, world, undos, wrapper, "wrapper");
      hide Inv;
      Put(wrapper, ["wrapper"]);
      undos := undos + [wrapper];
    }

    /** The scripts, then the wrapper, the late metadata and the config. */
    method Configure(a: Args, known: seq<Undo>, failing: int, ghost before: World) returns (done: bool, undos: seq<Undo>)
      requires Inv(a, before, world, known, HookStep(a)) && Up(a.mode, a.id) !in known
      modifies this
      ensures done <==> !(HookStep(a) <= failing < BootStep(a))
      ensures Inv(a, before, world, undos, if done then BootStep(a) else failing) && Up(a.mode, a.id) !in undos
      ensures Extends(world, old(world)) && (done ==> Configured(a, world))
    {
      assert WrapperStep(a) == HookStep(a) + |Scripts(a)| && ConfStep(a) == LateStep(a) + |Late(a)|;
      assert LateStep(a) == WrapperStep(a) + (if HasWrapper(a) then 1 else 0) && BootStep(a) == ConfStep(a) + if a.mode == Vm then 0 else 1;
      assert AllLocal(a, HookStep(a), WrapperStep(a)) && AllLocal(a, LateStep(a), ConfStep(a));
      hide Inv, Extends, AllThere, Scripts, Late, AllLocal, HookStep, WrapperStep, LateStep, ConfStep, BootStep, HasWrapper;
      undos := known;
      done := WriteLocal(a, undos, Scripts(a), HookStep(a), failing, before);
      if !done {
        return;
      }
      ghost var scripted := world;
      done, undos := WriteWrapper(a, undos, failing, before);
      ghost var wrapped := world;
      ThereStill(a, wrapped, scripted, Scripts(a));
      ExtendsOn(wrapped, scripted, old(world));
      if !done {
        return;
      }
      done := WriteLocal(a, undos, Late(a), LateStep(a), failing, before);
      ghost var late := world;
      ThereStill(a, late, wrapped, Scripts(a));
      ExtendsOn(late, wrapped, old(world));
      if !done {
        return;
      }
      done, undos := WriteConfig(a, undos, failing, before);
      ThereStill(a, world, late, Scripts(a));
      ThereStill(a, world, late, Late(a));
      ExtendsOn(world, late, old(world));
    }

    /** The stop is registered before the start is tried, since a start that fails may leave the instance
        running (`halfway`). */
    method Boot(a: Args, known: seq<Undo>, failing: int, halfway: bool, ghost before: World) returns (done: bool, undos: seq<Undo>)
      requires Inv(a, before, world, known, BootStep(a)) && Up(a.mode, a.id) !in known
      modifies this
      ensures done <==> !(a.start && failing == BootStep(a))
      ensures Inv(a, before, world, undos, if done then Steps(a) else failing)
      ensures Up(a.mode, a.id) in undos <==> a.start
      ensures (done && a.start ==> Up(a.mode, a.id) in world) && Extends(world, old(world))
    {
      undos, done := known, true;
      hide Inv;
      if a.start {
        var up := Up(a.mode, a.id);
        UpRegistered(a, before, world, undos, BootStep(a));
        undos := undos + [up];
        done := failing != BootStep(a);
        if done || halfway {
          UpStep(a, before, world, undos, BootStep(a));
          Put(up, []);
        }
        if done {
          QuietStep(a, before, world, undos, BootStep(a));
        }
      }
    }

    /** The guarded part of `create`, after the reservation made the instance directory. `failing` is the step
        that fails, `interrupted` an exception after the last one. */
    method Create(a: Args, failing: int, halfway: bool, interrupted: bool)
      returns (ok: bool, ghost order: seq<Undo>, ghost worlds: seq<World>)
      requires Dir(a.containerDir) !in world
      modifies this
      ensures ok <==> !(0 <= failing < Steps(a)) && !interrupted
      ensures ok ==> Installed(a, old(world), world)
      ensures !ok ==> (world == old(world) <==> Spared(a, old(world), DoneBefore(a, failing)))
      ensures !ok ==> |order| == |worlds| && order != [] && order[|order| - 1] == Dir(a.containerDir)
      ensures !ok ==> forall i | 0 <= i < |worlds| :: Dir(a.containerDir) in worlds[i]
    {
      ghost var before := world;
      order, worlds := [], [];
      Reserved(a, before, world[Dir(a.containerDir) := []]);
      Put(Dir(a.containerDir), []);
      hide Inv, Spared, Installed, Base, Subdirs, Metadata, Configured, Extends, Unwound;
      var undos, done := [Dir(a.containerDir)], false;
      done, undos := Prepare(a, undos, failing, before);
      if done {
        ghost var prepared := world;
        done := Record(a, undos, failing, before);
        StillThere(a, world, prepared);
      }
      if done {
        ghost var recorded := world;
        done, undos := Configure(a, undos, failing, before);
        StillThere(a, world, recorded);
      }
      if done {
        ghost var configured := world;
        done, undos := Boot(a, undos, failing, halfway, before);
        StillThere(a, world, configured);
      }
      ghost var n := DoneBefore(a, failing);
      ok := done && !interrupted;
      if ok {
        InstalledAtEnd(a, before, world, undos);
      } else {
        RolledBackExactly(a, before, world, undos, n);
        ContainerThere(a, before, world, undos, n);
        order, worlds := RunCleanup(undos);
      }
    }
  }
}
