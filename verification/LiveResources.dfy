/** The `resources` setter on a running plain-LXC container (`_instances.py`): apply each changed knob to the
    live cgroup, persist metadata and boot config, and on any failure undo the knobs in reverse order and
    persist the old values again. */
module LiveResources {
  import opened ConfText
  import opened Text
  import opened LxcConfig
  import opened LxcRuns
  import opened NetMeta

  datatype Knob = Memory | Cores

  type Bag = map<Knob, int>

  /** One value per knob. */
  datatype Both<T> = Both(memory: T, cores: T) {
    function Of(k: Knob): T {
      if k == Memory then memory else cores
    }

    function With(k: Knob, v: T): Both<T> {
      if k == Memory then this.(memory := v) else this.(cores := v)
    }
  }

  /** The order in which the setter goes through the knobs. */
  const KNOBS := [Memory, Cores]

  function Index(k: Knob): nat {
    if k == Memory then 0 else 1
  }

  /** The cgroup value of a knob, live and in the boot config. */
  function Limit(k: Knob, v: int): string {
    if k == Memory then MemoryValue(v) else CpuValue(v)
  }

  function LineKey(k: Knob): OwnedKey {
    if k == Memory then MemoryMax else CpuMax
  }

  /** The text gives the knob this value. */
  predicate Gives(k: Knob, text: string, v: int) {
    if k == Memory then GivesMemory(text, v) else GivesCores(text, v)
  }

  lemma LimitGives(k: Knob, v: int)
    ensures Gives(k, Limit(k, v), v)
  {
    LimitsMean(v);
  }

  /** The key of a knob in the boot config. */
  function ConfigKey(k: Knob): string {
    if k == Memory then "lxc.cgroup2.memory.max" else "lxc.cgroup2.cpu.max"
  }

  // ----- metadata files -----

  /** One entry of `_load_resources`. */
  function FileInt(file: Option<string>): Option<int> {
    var line := ReadLine(file);
    if line.None? then None else ParseInt(line.value)
  }

  function IntFile(v: int): Option<string> {
    Some(WriteLine(Integer(v)))
  }

  lemma IntFileReadsBack(v: int)
    ensures FileInt(IntFile(v)) == Some(v)
  {
    SignedBody(v);
    ParseIntOfInteger(v);
    IntegerIsSingle(v);
    StripIsPart(Integer(v));
    hide Strip, ParseInt, Integer, ReadLine, WriteLine;
    ReadWritten(Integer(v));
  }

  function BagOf(files: Both<Option<string>>): Bag {
    map k: Knob | k in {Memory, Cores} && FileInt(files.Of(k)).Some? :: FileInt(files.Of(k)).value
  }

  // ----- the setter -----

  /** The knob has a live operation in this assignment. */
  predicate Changed(was: Bag, value: Bag, k: Knob) {
    k in value && !(k in was && was[k] == value[k])
  }

  /** Where the outside world refuses: the live call for a knob, or one of the three file writes. */
  datatype Fault = Live(k: Knob) | WriteFile(k: Knob) | WriteConfig | Nowhere

  /** The faulty step is one that this assignment takes. */
  predicate Met(was: Bag, value: Bag, fault: Fault) {
    match fault
    case Live(k) => Changed(was, value, k)
    case WriteFile(k) => k in value
    case WriteConfig => value != map[]
    case Nowhere => false
  }

  /** The live knob had been changed when the fault was met. */
  predicate AppliedBefore(was: Bag, value: Bag, fault: Fault, k: Knob) {
    Changed(was, value, k) && (fault.Live? ==> Index(k) < Index(fault.k))
  }

  /** Persisting `bag` writes the metadata file: no earlier one was refused. */
  predicate Written(bag: Bag, fault: Fault, k: Knob) {
    k in bag && !(fault.WriteFile? && fault.k in bag && Index(fault.k) <= Index(k))
  }

  /** Persisting `bag` comes to its end. */
  predicate Persists(bag: Bag, fault: Fault) {
    !(fault.WriteFile? && fault.k in bag) && !(fault.WriteConfig? && bag != map[])
  }

  /** The metadata file had been written when the fault was met. */
  predicate FiledBefore(value: Bag, fault: Fault, k: Knob) {
    !fault.Live? && Written(value, fault, k)
  }

  // ----- what a rollback with failing steps leaves -----

  /** Where the rollback itself is refused: live calls that cannot be taken back, and one of the writes. */
  datatype Trouble = Trouble(stuck: set<Knob>, second: Fault)

  /** The live value after a failed assignment. */
  function LiveAfter(was: Bag, value: Bag, fault: Fault, t: Trouble, live: string, k: Knob): string {
    if !AppliedBefore(was, value, fault, k) then live
    else if k in was && k !in t.stuck then Limit(k, was[k])
    else Limit(k, value[k])
  }

  /** The metadata file after a failed assignment. */
  function FileAfter(was: Bag, value: Bag, fault: Fault, t: Trouble, file: Option<string>, k: Knob): Option<string> {
    if Written(was, t.second, k) then IntFile(was[k])
    else if FiledBefore(value, fault, k) then IntFile(value[k])
    else file
  }

  /** The knob is left with the value of the failed assignment, live or on disk. */
  predicate Stranded(was: Bag, value: Bag, fault: Fault, t: Trouble, k: Knob)
    requires k in was
  {
    || (AppliedBefore(was, value, fault, k) && k in t.stuck)
    || (FiledBefore(value, fault, k) && value[k] != was[k] && !Written(was, t.second, k))
  }

  lemma LimitInjective(k: Knob, v: int, w: int)
    requires Limit(k, v) == Limit(k, w)
    ensures v == w
  {
    var a, b := if k == Memory then v * MIB else v * CFS_PERIOD, if k == Memory then w * MIB else w * CFS_PERIOD;
    if k == Cores {
      var n := |Integer(a)|;
      assert Integer(a) == Limit(k, v)[..n] && |Limit(k, v)| == n + 7;
    }
    assert Integer(a) == Integer(b);
    IntegerInjective(a, b);
  }

  /** A recorded knob that was in force is so again exactly when it is not stranded. */
  lemma BackUnlessStranded(was: Bag, value: Bag, fault: Fault, t: Trouble, file: Option<string>, k: Knob)
    requires k in was && FileInt(file) == Some(was[k])
    ensures LiveAfter(was, value, fault, t, Limit(k, was[k]), k) == Limit(k, was[k])
            && FileInt(FileAfter(was, value, fault, t, file, k)) == Some(was[k])
       <==> !Stranded(was, value, fault, t, k)
  {
    hide Limit, FileInt, IntFile;
    IntFileReadsBack(was[k]);
    if k in value {
      IntFileReadsBack(value[k]);
      if Limit(k, value[k]) == Limit(k, was[k]) {
        LimitInjective(k, value[k], was[k]);
      }
    }
  }

  /** The undo stack holds the recorded value of the knob. */
  predicate Pushed(undo: seq<(Knob, int)>, was: Bag, k: Knob) {
    k in was && (k, was[k]) in undo
  }

  predicate OldValues(undo: seq<(Knob, int)>, was: Bag) {
    forall i | 0 <= i < |undo| :: undo[i].0 in was && undo[i].1 == was[undo[i].0]
  }

  lemma PushMore(undo: seq<(Knob, int)>, was: Bag, k: Knob)
    requires OldValues(undo, was) && k in was
    ensures OldValues(undo + [(k, was[k])], was)
    ensures forall j :: Pushed(undo + [(k, was[k])], was, j) <==> Pushed(undo, was, j) || j == k
  {
  }

  /** The live values after the undo stack ran, last pushed first; the calls for the stuck knobs do nothing. */
  function Undone(live: Both<string>, undo: seq<(Knob, int)>, stuck: set<Knob>): Both<string>
    decreases |undo|
  {
    if undo == [] then live else
      var (k, v) := undo[|undo| - 1];
      Undone(if k in stuck then live else live.With(k, Limit(k, v)), undo[..|undo| - 1], stuck)
  }

  lemma {:induction false} UndoneAt(live: Both<string>, undo: seq<(Knob, int)>, stuck: set<Knob>, was: Bag, k: Knob)
    requires OldValues(undo, was)
    ensures Undone(live, undo, stuck).Of(k) == if Pushed(undo, was, k) && k !in stuck then Limit(k, was[k]) else live.Of(k)
    decreases |undo|
  {
    hide Limit;
    if undo == [] {
    } else {
      var (j, v) := undo[|undo| - 1];
      var rest := undo[..|undo| - 1];
      UndoneAt(if j in stuck then live else live.With(j, Limit(j, v)), rest, stuck, was, k);
      assert undo == rest + [(j, was[j])];
      PushMore(rest, was, j);
    }
  }

  /** What the rollback makes of one knob, in terms of what there was before the attempt. */
  lemma KnobAfter(was: Bag, value: Bag, fault: Fault, t: Trouble, live: string, file: Option<string>, k: Knob)
    ensures LiveAfter(was, value, fault, t, live, k)
         == if k in was && AppliedBefore(was, value, fault, k) && k !in t.stuck then Limit(k, was[k])
            else if AppliedBefore(was, value, fault, k) then Limit(k, value[k]) else live
    ensures FileAfter(was, value, fault, t, file, k)
         == if Written(was, t.second, k) then IntFile(was[k])
            else if FiledBefore(value, fault, k) then IntFile(value[k]) else file
  {
  }

  function Opt(bag: Bag, k: Knob): Option<int> {
    if k in bag then Some(bag[k]) else None
  }

  /** The boot config after `_apply_lxc` with these limits only. */
  function Configured(config: Conf, bag: Bag): Conf {
    WithCores(WithMemory(config, Opt(bag, Memory)), Opt(bag, Cores))
  }

  function OwnedAfter(config: Conf, bag: Bag, o: OwnedKey): Option<string> {
    if o == MemoryMax && Memory in bag then Some(MemoryValue(bag[Memory]))
    else if o == CpuMax && Cores in bag then Some(CpuValue(bag[Cores]))
    else Owned(config, o)
  }

  lemma ConfiguredFacts(config: Conf, bag: Bag)
    requires Single(config)
    ensures Single(Configured(config, bag))
    ensures forall o: OwnedKey :: Owned(Configured(config, bag), o) == OwnedAfter(config, bag, o)
  {
    if Memory in bag { LimitsAreStripped(bag[Memory]); }
    if Cores in bag { LimitsAreStripped(bag[Cores]); }
    hide Single, Owned, Put, Name, MemoryValue, CpuValue, Strip;
    if Memory in bag {
      PutOwned(config, MemoryMax, Some(MemoryValue(bag[Memory])));
    }
    if Cores in bag {
      PutOwned(WithMemory(config, Opt(bag, Memory)), CpuMax, Some(CpuValue(bag[Cores])));
    }
  }

  lemma UnnamedIsLeft(was: Bag, value: Bag, fault: Fault, t: Trouble, live: string, file: Option<string>, k: Knob)
    requires k !in was && k !in value
    ensures LiveAfter(was, value, fault, t, live, k) == live && FileAfter(was, value, fault, t, file, k) == file
  {
  }

  lemma BagsEqual(files: Both<Option<string>>, bag: Bag)
    requires forall k | k in bag :: FileInt(files.Of(k)) == Some(bag[k])
    ensures BagOf(files) == bag <==> forall k | k in BagOf(files) :: k in bag
  {
    hide FileInt;
    forall k: Knob | k in bag ensures k in BagOf(files) {
      assert k == Memory || k == Cores;
    }
    if forall k | k in BagOf(files) :: k in bag {
      assert BagOf(files).Keys == bag.Keys;
    }
  }

  lemma BagKept(before: Both<Option<string>>, files: Both<Option<string>>, bag: Bag)
    requires bag == BagOf(before)
    requires forall k | k in bag :: FileInt(files.Of(k)) == Some(bag[k])
    requires forall k | k !in bag :: files.Of(k) == before.Of(k)
    ensures bag == BagOf(files)
  {
    hide FileInt;
    forall k: Knob | k in BagOf(files) ensures k in bag {
      assert k == Memory || k == Cores;
    }
    BagsEqual(files, bag);
  }

  /** When every recorded knob is back, so is everything. */
  lemma AllBack(was: Bag, value: Bag, fault: Fault, t: Trouble, liveBefore: Both<string>, live: Both<string>,
                filesBefore: Both<Option<string>>, files: Both<Option<string>>)
    requires value.Keys <= was.Keys && was == BagOf(filesBefore)
    requires forall k :: live.Of(k) == LiveAfter(was, value, fault, t, liveBefore.Of(k), k)
                         && files.Of(k) == FileAfter(was, value, fault, t, filesBefore.Of(k), k)
    requires forall k | k in was :: live.Of(k) == liveBefore.Of(k) && FileInt(files.Of(k)) == Some(was[k])
    ensures live == liveBefore && was == BagOf(files)
  {
    forall k | k !in was ensures live.Of(k) == liveBefore.Of(k) && files.Of(k) == filesBefore.Of(k) {
      UnnamedIsLeft(was, value, fault, t, liveBefore.Of(k), filesBefore.Of(k), k);
    }
    hide LiveAfter, FileAfter, BagOf, FileInt;
    BagKept(filesBefore, files, was);
    assert live.memory == live.Of(Memory) && live.cores == live.Of(Cores);
    assert liveBefore.memory == liveBefore.Of(Memory) && liveBefore.cores == liveBefore.Of(Cores);
  }

  lemma ConfigUnmoved(config: Conf, bag: Bag)
    requires forall k | k in bag :: Owned(config, LineKey(k)) == Some(Limit(k, bag[k]))
    ensures forall o: OwnedKey :: OwnedAfter(config, bag, o) == Owned(config, o)
  {
    hide Owned, MemoryValue, CpuValue;
    if Memory in bag {
      assert Owned(config, LineKey(Memory)) == Some(Limit(Memory, bag[Memory]));
    }
    if Cores in bag {
      assert Owned(config, LineKey(Cores)) == Some(Limit(Cores, bag[Cores]));
    }
  }

  lemma LimitsOwned(config: Conf, bag: Bag)
    requires forall o: OwnedKey :: Owned(Configured(config, bag), o) == OwnedAfter(config, bag, o)
    ensures forall k | k in bag :: Owned(Configured(config, bag), LineKey(k)) == Some(Limit(k, bag[k]))
  {
    hide Configured, Owned, MemoryValue, CpuValue;
  }

  lemma Persisted(files: Both<Option<string>>, bag: Bag)
    requires forall k | k in bag :: files.Of(k) == IntFile(bag[k])
    ensures forall k | k in bag :: FileInt(files.Of(k)) == Some(bag[k])
    ensures BagOf(files) == bag <==> forall k | k !in bag :: FileInt(files.Of(k)).None?
  {
    forall k | k in bag ensures FileInt(files.Of(k)) == Some(bag[k]) {
      IntFileReadsBack(bag[k]);
    }
    hide FileInt, IntFile;
    forall k: Knob ensures k in BagOf(files) <==> FileInt(files.Of(k)).Some? {
      assert k == Memory || k == Cores;
    }
    hide BagOf;
    BagsEqual(files, bag);
  }

  class Container {
    var live: Both<string>
    var config: Conf
    var files: Both<Option<string>>
    var resources: Bag

    /** Live value, boot config and metadata all say `v` for a knob. */
    ghost predicate Settled(k: Knob, v: int)
      reads this
    {
      live.Of(k) == Limit(k, v) && Owned(config, LineKey(k)) == Some(Limit(k, v)) && FileInt(files.Of(k)) == Some(v)
    }

    /** The live text and the line of the boot config give the knob this value, in their own words. */
    ghost predicate InForce(k: Knob, v: int)
      reads this
    {
      var line := Lookup(config, ConfigKey(k));
      Gives(k, live.Of(k), v) && line.Some? && Gives(k, line.value, v)
    }

    lemma SettledGives(k: Knob, v: int)
      requires Settled(k, v)
      ensures InForce(k, v)
    {
      hide Limit, Gives, Lookup, FileInt;
      LimitGives(k, v);
    }

    /** The cache is what the metadata records, and each recorded limit is in force and in the config. */
    ghost predicate Coherent()
      reads this
    {
      Single(config) && resources == BagOf(files) && forall k | k in resources :: Settled(k, resources[k])
    }

    constructor (live: Both<string>, config: Conf, files: Both<Option<string>>)
      ensures this.live == live && this.config == config && this.files == files && resources == BagOf(files)
    {
      this.live, this.config, this.files, resources := live, config, files, BagOf(files);
    }

    method Apply(k: Knob, v: int)
      modifies this`live
      ensures live == old(live).With(k, Limit(k, v))
      ensures forall j :: live.Of(j) == if j == k then Limit(k, v) else old(live).Of(j)
    {
      live := live.With(k, Limit(k, v));
    }

    /** `_persist_resources`: the metadata files, then the config. */
    method Persist(bag: Bag, fault: Fault) returns (ok: bool)
      modifies this`config, this`files
      ensures ok <==> Persists(bag, fault)
      ensures config == if ok then Configured(old(config), bag) else old(config)
      ensures forall k :: files.Of(k) == if Written(bag, fault, k) then IntFile(bag[k]) else old(files).Of(k)
    {
      hide Put, IntFile, Name, MemoryValue, CpuValue;
      assert bag == map[] <==> Memory !in bag && Cores !in bag by {
        if Memory !in bag && Cores !in bag {
          assert bag.Keys == {} by { forall k: Knob ensures k !in bag { assert k == Memory || k == Cores; } }
        }
      }
      var content := config;
      if Memory in bag {
        if fault == WriteFile(Memory) { return false; }
        files := files.With(Memory, IntFile(bag[Memory]));
        content := ReplaceConfigRaw(content, Name(MemoryMax), Some(MemoryValue(bag[Memory])));
      }
      if Cores in bag {
        if fault == WriteFile(Cores) { return false; }
        files := files.With(Cores, IntFile(bag[Cores]));
        content := ReplaceConfigRaw(content, Name(CpuMax), Some(CpuValue(bag[Cores])));
      }
      if bag != map[] {
        if fault == WriteConfig { return false; }
        config := content;
      }
      return true;
    }

    /** Applies the changed knobs in order, pushing the old value of each that has one. */
    method ApplyLive(value: Bag, fault: Fault) returns (ok: bool, undo: seq<(Knob, int)>)
      modifies this`live
      ensures ok <==> !(fault.Live? && Changed(resources, value, fault.k))
      ensures forall k :: live.Of(k) == if Changed(resources, value, k) && (ok || AppliedBefore(resources, value, fault, k))
                                        then Limit(k, value[k]) else old(live).Of(k)
      ensures OldValues(undo, resources)
      ensures forall k :: Pushed(undo, resources, k)
                <==> k in resources && Changed(resources, value, k) && (ok || AppliedBefore(resources, value, fault, k))
    {
      hide Limit, Both.Of;
      undo := [];
      assert forall k :: !Pushed(undo, resources, k);
      hide Pushed, OldValues, AppliedBefore;
      var i := 0;
      while i < |KNOBS|
        invariant 0 <= i <= 2
        invariant fault.Live? && Index(fault.k) < i ==> !Changed(resources, value, fault.k)
        invariant forall k :: live.Of(k) == if Changed(resources, value, k) && Index(k) < i then Limit(k, value[k]) else old(live).Of(k)
        invariant OldValues(undo, resources)
        invariant forall k :: Pushed(undo, resources, k) <==> k in resources && Changed(resources, value, k) && Index(k) < i
      {
        var k := KNOBS[i];
        if Changed(resources, value, k) {
          if fault == Live(k) {
            return false, undo;
          }
          Apply(k, value[k]);
          if k in resources {
            PushMore(undo, resources, k);
            undo := undo + [(k, resources[k])];
          }
        }
        i := i + 1;
      }
      ok := true;
    }

    /** Runs the undo stack, last pushed first, going on past the calls that fail. */
    method Unwind(undo: seq<(Knob, int)>, stuck: set<Knob>)
      modifies this`live
      ensures live == Undone(old(live), undo, stuck)
    {
      hide Limit;
      var i := |undo|;
      assert undo[..i] == undo;
      while i > 0
        invariant 0 <= i <= |undo|
        invariant Undone(live, undo[..i], stuck) == Undone(old(live), undo, stuck)
      {
        i := i - 1;
        assert undo[..i + 1][..i] == undo[..i];
        if undo[i].0 !in stuck {
          Apply(undo[i].0, undo[i].1);
        }
      }
    }

    /** `_persist_resources`, and what it makes true of the knobs it was given. */
    method Commit(bag: Bag, fault: Fault) returns (ok: bool)
      requires Single(config)
      modifies this`config, this`files
      ensures ok <==> Persists(bag, fault)
      ensures forall k :: files.Of(k) == if Written(bag, fault, k) then IntFile(bag[k]) else old(files).Of(k)
      ensures Single(config)
      ensures ok ==> forall k | k in bag :: Owned(config, LineKey(k)) == Some(Limit(k, bag[k])) && FileInt(files.Of(k)) == Some(bag[k])
      ensures forall o: OwnedKey :: Owned(config, o) == if ok then OwnedAfter(old(config), bag, o) else old(Owned(config, o))
      ensures ok ==> (BagOf(files) == bag <==> forall k | k !in bag :: FileInt(files.Of(k)).None?)
    {
      hide Limit, Configured, Single, Owned, IntFile, FileInt, BagOf, LineKey, OwnedAfter;
      ok := Persist(bag, fault);
      if ok {
        ConfiguredFacts(old(config), bag);
        LimitsOwned(old(config), bag);
        Persisted(files, bag);
      }
    }

    /** The rollback: the live calls, then the old values into files and config. Each part goes on past what the
        other could not do. */
    method Restore(undo: seq<(Knob, int)>, trouble: Trouble)
      requires Single(config) && OldValues(undo, resources)
      requires forall k | k in resources :: Owned(config, LineKey(k)) == Some(Limit(k, resources[k]))
      modifies this`live, this`config, this`files
      ensures forall k :: live.Of(k) == if Pushed(undo, resources, k) && k !in trouble.stuck
                                        then Limit(k, resources[k]) else old(live).Of(k)
      ensures forall k :: files.Of(k) == if Written(resources, trouble.second, k) then IntFile(resources[k]) else old(files).Of(k)
      ensures Single(config) && forall o: OwnedKey :: Owned(config, o) == old(Owned(config, o))
    {
      ConfigUnmoved(config, resources);
      hide Limit, Single, Owned, IntFile, FileInt, BagOf, LineKey, OwnedAfter;
      forall k ensures Undone(live, undo, trouble.stuck).Of(k)
                    == if Pushed(undo, resources, k) && k !in trouble.stuck then Limit(k, resources[k]) else live.Of(k)
      {
        UndoneAt(live, undo, trouble.stuck, resources, k);
      }
      hide Undone, Pushed;
      Unwind(undo, trouble.stuck);
      var again := Commit(resources, trouble.second);
    }

    /** What is tried first: the live calls, then the files and the config. */
    method Attempt(value: Bag, fault: Fault) returns (ok: bool, undo: seq<(Knob, int)>)
      requires Coherent()
      modifies this`live, this`config, this`files
      ensures ok <==> !Met(resources, value, fault)
      ensures ok ==> forall k | k in value :: Settled(k, value[k])
      ensures ok ==> forall k | k !in value :: live.Of(k) == old(live).Of(k) && files.Of(k) == old(files).Of(k)
      ensures ok ==> (BagOf(files) == value <==> resources.Keys <= value.Keys)
      ensures !ok ==> forall k ::
                && live.Of(k) == (if AppliedBefore(resources, value, fault, k) then Limit(k, value[k]) else old(live).Of(k))
                && files.Of(k) == (if FiledBefore(value, fault, k) then IntFile(value[k]) else old(files).Of(k))
      ensures OldValues(undo, resources)
      ensures !ok ==> forall k :: Pushed(undo, resources, k) <==> k in resources && AppliedBefore(resources, value, fault, k)
      ensures Single(config)
      ensures forall o: OwnedKey :: Owned(config, o) == if ok then OwnedAfter(old(config), value, o) else old(Owned(config, o))
    {
      hide Limit, Single, Owned, IntFile, FileInt, LineKey, OwnedAfter;
      ok, undo := ApplyLive(value, fault);
      if ok {
        ok := Commit(value, fault);
      }
    }

    /** The rollback of a failed attempt, from what there was before it. */
    method Revert(undo: seq<(Knob, int)>, value: Bag, fault: Fault, trouble: Trouble,
                  ghost liveBefore: Both<string>, ghost filesBefore: Both<Option<string>>)
      requires Single(config) && resources == BagOf(filesBefore)
      requires OldValues(undo, resources)
      requires forall k :: Pushed(undo, resources, k) <==> k in resources && AppliedBefore(resources, value, fault, k)
      requires forall k | k in resources :: liveBefore.Of(k) == Limit(k, resources[k]) && FileInt(filesBefore.Of(k)) == Some(resources[k])
                                            && Owned(config, LineKey(k)) == Some(Limit(k, resources[k]))
      requires forall k ::
                && live.Of(k) == (if AppliedBefore(resources, value, fault, k) then Limit(k, value[k]) else liveBefore.Of(k))
                && files.Of(k) == (if FiledBefore(value, fault, k) then IntFile(value[k]) else filesBefore.Of(k))
      modifies this`live, this`config, this`files
      ensures forall k ::
                && live.Of(k) == LiveAfter(resources, value, fault, trouble, liveBefore.Of(k), k)
                && files.Of(k) == FileAfter(resources, value, fault, trouble, filesBefore.Of(k), k)
      ensures forall k | k in resources :: Settled(k, resources[k]) <==> !Stranded(resources, value, fault, trouble, k)
      ensures value.Keys <= resources.Keys ==>
                (Coherent() && live == liveBefore <==> forall k | k in resources :: !Stranded(resources, value, fault, trouble, k))
      ensures Single(config) && forall o: OwnedKey :: Owned(config, o) == old(Owned(config, o))
    {
      hide Limit, Single, Owned, IntFile, FileInt, LineKey, OwnedAfter, BagOf, Changed, AppliedBefore, FiledBefore, Written, Stranded,
           LiveAfter, FileAfter, Pushed, OldValues;
      Restore(undo, trouble);
      forall k
        ensures live.Of(k) == LiveAfter(resources, value, fault, trouble, liveBefore.Of(k), k)
        ensures files.Of(k) == FileAfter(resources, value, fault, trouble, filesBefore.Of(k), k)
      {
        KnobAfter(resources, value, fault, trouble, liveBefore.Of(k), filesBefore.Of(k), k);
      }
      forall k | k in resources ensures Settled(k, resources[k]) <==> !Stranded(resources, value, fault, trouble, k) {
        BackUnlessStranded(resources, value, fault, trouble, filesBefore.Of(k), k);
      }
      if value.Keys <= resources.Keys && forall k | k in resources :: !Stranded(resources, value, fault, trouble, k) {
        AllBack(resources, value, fault, trouble, liveBefore, live, filesBefore, files);
      }
    }

    /** The running branch of `_set_resources_live`. `fault` is what the assignment meets, `trouble` what its
        rollback meets. */
    method SetResources(value: Bag, fault: Fault, trouble: Trouble) returns (ok: bool)
      requires Coherent()
      modifies this
      ensures ok <==> !Met(old(resources), value, fault)
      // success: every assigned knob is in force, in the config and on disk; the others are as they were
      ensures ok ==> resources == value && forall k | k in value :: Settled(k, value[k]) && InForce(k, value[k])
      ensures ok ==> forall k | k !in value :: live.Of(k) == old(live).Of(k) && files.Of(k) == old(files).Of(k)
      ensures ok ==> (Coherent() <==> old(resources).Keys <= value.Keys)
      // failure: what each knob is left with, and which recorded knobs are back
      ensures !ok ==> resources == old(resources) && forall k ::
                && live.Of(k) == LiveAfter(resources, value, fault, trouble, old(live).Of(k), k)
                && files.Of(k) == FileAfter(resources, value, fault, trouble, old(files).Of(k), k)
      ensures !ok ==> forall k | k in resources :: Settled(k, resources[k]) <==> !Stranded(resources, value, fault, trouble, k)
      ensures !ok ==> forall k | k in resources && !Stranded(resources, value, fault, trouble, k) :: InForce(k, resources[k])
      ensures !ok && value.Keys <= resources.Keys ==>
                (Coherent() && live == old(live) <==> forall k | k in resources :: !Stranded(resources, value, fault, trouble, k))
      // the rest of the config is left alone
      ensures Single(config)
      ensures forall o: OwnedKey :: Owned(config, o) == if ok then OwnedAfter(old(config), value, o) else old(Owned(config, o))
    {
      hide Limit, Single, Owned, IntFile, FileInt, LineKey, OwnedAfter, BagOf, Changed, AppliedBefore, FiledBefore, Written, Met, InForce;
      ghost var was, liveBefore, filesBefore := resources, live, files;
      var done, undo := Attempt(value, fault);
      if done {
        resources := value;
        forall k | k in value ensures InForce(k, value[k]) {
          SettledGives(k, value[k]);
        }
        return true;
      }
      Revert(undo, value, fault, trouble, liveBefore, filesBefore);
      forall k | k in resources && !Stranded(resources, value, fault, trouble, k) ensures InForce(k, resources[k]) {
        SettledGives(k, resources[k]);
      }
      return false;
    }
  }
}
