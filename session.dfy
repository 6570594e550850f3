/**
 * The shared-instance registry of `SingletonMeta` (`__call__`) and its
 * removal in `SeleniumBrowser.close_driver`. The driver inside an instance
 * is opaque; an instance is identified by the class it was made for and
 * by its place in the order of construction.
 */
module Session {
  import opened Outcomes

  /** A class whose metaclass is `SingletonMeta`. */
  datatype ClassId = ClassId(name: string)

  /** An object built by `type.__call__`; two instances are the same object exactly when they are equal. */
  datatype Instance = Instance(cls: ClassId, serial: nat)

  datatype SessionError =
    | EngineFailedToStart       // `webdriver.Chrome(...)` raised inside `__init__`
    | NotRegistered(cls: ClassId) // `del _instances[cls]` raised `KeyError`

  /** The state of `SingletonMeta._instances`, with the number of instances built so far. */
  datatype Registry = Registry(instances: map<ClassId, Instance>, constructed: nat)

  /** Every entry was built for its own key, and before the current count. */
  predicate WellFormed(reg: Registry) {
    forall c :: c in reg.instances ==> reg.instances[c].cls == c && reg.instances[c].serial < reg.constructed
  }

  function EmptyRegistry(): (reg: Registry)
    ensures WellFormed(reg) && reg.instances == map[]
  {
    Registry(map[], 0)
  }

  /**
   * `SingletonMeta.__call__(cls)`: the stored instance if there is one, else
   * a newly built one, stored under `cls`. `engineStarts` says whether the
   * constructor returns; when it raises, nothing is stored.
   */
  function MetaCall(reg: Registry, cls: ClassId, engineStarts: bool): (Registry, Result<Instance, SessionError>) {
    if cls in reg.instances then (reg, Ok(reg.instances[cls]))
    else if !engineStarts then (reg, Err(EngineFailedToStart))
    else
      var inst := Instance(cls, reg.constructed);
      (Registry(reg.instances[cls := inst], reg.constructed + 1), Ok(inst))
  }

  /** The registry part of `close_driver` on an instance of `cls`: `del _instances[cls]`. */
  function DeleteEntry(reg: Registry, cls: ClassId): (Registry, Outcome<SessionError>) {
    if cls in reg.instances then (Registry(reg.instances - {cls}, reg.constructed), Pass)
    else (reg, Fail(NotRegistered(cls)))
  }

  lemma CallPreservesWellFormed(reg: Registry, cls: ClassId, engineStarts: bool)
    requires WellFormed(reg)
    ensures WellFormed(MetaCall(reg, cls, engineStarts).0)
    ensures MetaCall(reg, cls, engineStarts).1.Ok? ==> MetaCall(reg, cls, engineStarts).1.value.cls == cls
  {
  }

  lemma ClosePreservesWellFormed(reg: Registry, cls: ClassId)
    requires WellFormed(reg)
    ensures WellFormed(DeleteEntry(reg, cls).0)
  {
  }

  /**
   * The first call for a class builds one instance and adds one entry; a
   * second call returns the identical instance and changes nothing.
   */
  lemma CallTwiceSameInstance(reg: Registry, cls: ClassId, first: bool, second: bool)
    requires WellFormed(reg)
    ensures var (reg1, a) := MetaCall(reg, cls, first);
            var (reg2, b) := MetaCall(reg1, cls, second);
            a.Ok? ==>
              && b == a
              && reg2 == reg1
              && reg1.instances.Keys == reg.instances.Keys + {cls}
              && reg1.constructed == reg.constructed + (if cls in reg.instances then 0 else 1)
  {
  }

  /** A failed construction leaves the registry as it was. */
  lemma FailedConstructionStoresNothing(reg: Registry, cls: ClassId)
    requires cls !in reg.instances
    ensures MetaCall(reg, cls, false) == (reg, Err(EngineFailedToStart))
  {
  }

  /** `close_driver` removes the entry of its own class and leaves every other entry as it was. */
  lemma CloseRemovesOwnEntry(reg: Registry, cls: ClassId)
    ensures var (reg1, o) := DeleteEntry(reg, cls);
            && (cls in reg.instances ==> o == Pass && reg1.instances.Keys == reg.instances.Keys - {cls})
            && (cls !in reg.instances ==> o == Fail(NotRegistered(cls)) && reg1 == reg)
            && cls !in reg1.instances
            && reg1.constructed == reg.constructed
            && forall c :: c in reg.instances && c != cls ==> c in reg1.instances && reg1.instances[c] == reg.instances[c]
  {
  }

  /** After `close_driver`, the next call for the class builds an instance distinct from every earlier one. */
  lemma CallAfterCloseBuildsAnew(reg: Registry, cls: ClassId)
    requires WellFormed(reg) && cls in reg.instances
    ensures var (reg1, _) := DeleteEntry(reg, cls);
            var (reg2, r) := MetaCall(reg1, cls, true);
            && r == Ok(Instance(cls, reg.constructed))
            && r.value != reg.instances[cls]
            && (forall c :: c in reg.instances ==> reg.instances[c] != r.value)
            && reg2.instances == reg.instances[cls := r.value]
  {
  }

  /** The registry as the class attribute `SingletonMeta._instances`, updated in place. */
  class SingletonMeta {
    var instances: map<ClassId, Instance>
    var constructed: nat

    function State(): Registry
      reads this
    {
      Registry(instances, constructed)
    }

    ghost predicate Valid()
      reads this
    {
      WellFormed(State())
    }

    constructor ()
      ensures Valid() && instances == map[] && constructed == 0
    {
      instances := map[];
      constructed := 0;
    }

    /** `cls()` for a class with this metaclass. */
    method Call(cls: ClassId, engineStarts: bool) returns (r: Result<Instance, SessionError>)
      requires Valid()
      modifies this
      ensures Valid()
      ensures (State(), r) == MetaCall(old(State()), cls, engineStarts)
      ensures cls in old(instances) ==> r == Ok(old(instances)[cls]) && unchanged(this)
    {
      if cls !in instances {
        if !engineStarts {
          return Err(EngineFailedToStart);
        }
        var inst := Instance(cls, constructed);
        instances := instances[cls := inst];
        constructed := constructed + 1;
      }
      r := Ok(instances[cls]);
    }

    /** `close_driver()` on an instance of `cls`, registry part. */
    method CloseDriver(cls: ClassId) returns (o: Outcome<SessionError>)
      requires Valid()
      modifies this
      ensures Valid()
      ensures (State(), o) == DeleteEntry(old(State()), cls)
      ensures instances == old(instances) - {cls} && constructed == old(constructed)
    {
      if cls !in instances {
        return Fail(NotRegistered(cls));
      }
      instances := instances - {cls};
      o := Pass;
    }
  }
}
