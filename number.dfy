/**
 * The number entity (number.py): a holding register shown as a number.  Its bounds and
 * step come from the definition; a new value is scaled, rounded and written, and the
 * entity is refreshed from the device.
 */
module Number {
  import opened Wrappers
  import opened Definitions
  import opened Codec
  import opened Coordinator

  /** `definition.get("min", 0)`. */
  function NativeMin(d: Definition): real {
    d.minValue.GetOr(0.0)
  }

  /** `definition.get("max", 100)`. */
  function NativeMax(d: Definition): real {
    d.maxValue.GetOr(100.0)
  }

  /** The step of the entity: one raw unit, `1 / scaling`; 1.0 when the scaling is 0. */
  function NativeStep(d: Definition): (step: real)
    ensures d.scaling.GetOr(1.0) != 0.0 ==> step * d.scaling.GetOr(1.0) == 1.0
    ensures d.scaling.GetOr(1.0) == 0.0 ==> step == 1.0
  {
    var scaling := d.scaling.GetOr(1.0);
    if scaling != 0.0 then 1.0 / scaling else 1.0
  }

  /** `value * scaling_factor`: a value in raw register units. */
  function RawUnits(value: real, scaling: real): real {
    value * scaling
  }

  /**
   * The write `async_set_native_value(value)` issues: none for a zero scaling or a missing
   * register, otherwise `value * scaling` rounded to the nearest integer (ties to even) at
   * the zero-based holding address.  The bounds are not consulted.
   */
  function NumberWrite(d: Definition, value: real): (w: Option<Write>)
    ensures w.None? <==> d.scaling.GetOr(1.0) == 0.0 || d.register.None?
    ensures w.Some? ==> w.value.address == d.register.value - 40001
    ensures w.Some? ==> var x := value * d.scaling.GetOr(1.0);
                        && x - 0.5 <= w.value.value as real <= x + 0.5
                        && ((w.value.value as real == x - 0.5 || w.value.value as real == x + 0.5) ==> w.value.value % 2 == 0)
  {
    var scaling := d.scaling.GetOr(1.0);
    if scaling == 0.0 || d.register.None? then None
    else Some(WriteRegister(d.register.value - 40001, RoundHalfEven(RawUnits(value, scaling))))
  }

  /** A value a whole number `k` of steps from zero is written as the raw word `k`. */
  lemma StepWritesInteger(d: Definition, k: int)
    requires d.scaling.GetOr(1.0) != 0.0 && d.register.Some?
    ensures NumberWrite(d, k as real * NativeStep(d)) == Some(WriteRegister(d.register.value - 40001, k))
  {
    assert NativeStep(d) * d.scaling.GetOr(1.0) == 1.0;
    assert RawUnits(k as real * NativeStep(d), d.scaling.GetOr(1.0)) == k as real;
    RoundOfInteger(k);
  }

  /** `float(value)` of a stored value; a string gives `None`. */
  function AsFloat(v: Value): (r: Option<real>)
    ensures r.None? <==> v.TextValue?
  {
    match v
    case IntValue(i) => Some(i as real)
    case FloatValue(m, p) => Some(FloatReal(m, p))
    case BoolValue(b) => Some(if b then 1.0 else 0.0)
    case TextValue(_) => None
  }

  /** `FroelingNumber`: bounds and step are fixed at construction. */
  class FroelingNumber {
    const coordinator: FroelingDataUpdateCoordinator
    const entityId: EntityId
    const definition: Definition
    const nativeMinValue: real
    const nativeMaxValue: real
    const nativeStep: real

    constructor(coordinator: FroelingDataUpdateCoordinator, entityId: EntityId)
      requires Lookup(coordinator.definitions, entityId).Some?
      ensures this.coordinator == coordinator && this.entityId == entityId
      ensures definition == Lookup(coordinator.definitions, entityId).value
      ensures nativeMinValue == NativeMin(definition) && nativeMaxValue == NativeMax(definition)
      ensures nativeStep == NativeStep(definition)
    {
      this.coordinator := coordinator;
      this.entityId := entityId;
      var d := Lookup(coordinator.definitions, entityId).value;
      definition := d;
      nativeMinValue := d.minValue.GetOr(0.0);
      nativeMaxValue := d.maxValue.GetOr(100.0);
      var scaling := d.scaling.GetOr(1.0);
      if scaling != 0.0 {
        nativeStep := 1.0 / scaling;
      } else {
        nativeStep := 1.0;
      }
    }

    /**
     * `native_value`: `None` when the data holds nothing for the entity, otherwise the
     * stored value as a float; `data.get` on absent data raises `AttributeError`.
     */
    function NativeValue(): (r: Result<Option<real>, PyError>)
      reads coordinator
      ensures r.Failure? <==> coordinator.data.None?
      ensures coordinator.data.Some? && StoredValue(coordinator.data.value, entityId).None? ==> r == Success(None)
      ensures coordinator.data.Some? && StoredValue(coordinator.data.value, entityId).Some? ==>
                r == Success(AsFloat(StoredValue(coordinator.data.value, entityId).value))
    {
      match coordinator.data
      case None => Failure(AttributeError)
      case Some(data) =>
        match StoredValue(data, entityId)
        case None => Success(None)
        case Some(v) => Success(AsFloat(v))
    }

    /**
     * `async_set_native_value`: a bad definition writes nothing and refreshes nothing;
     * otherwise the encoded value is written and the entity refreshed, whatever the write's
     * own outcome.
     */
    method SetNativeValue(value: real, device: Device) returns (write: Option<Write>, refresh: Option<RefreshOutcome>)
      modifies coordinator
      ensures write == NumberWrite(definition, value)
      ensures refresh.Some? <==> write.Some?
      ensures refresh.Some? ==> refresh.value == RefreshResult(coordinator.definitions, entityId, device, coordinator.mappings)
      ensures refresh.Some? && refresh.value.Updated? ==>
                coordinator.data == Some(old(coordinator.data).GetOr(map[])[entityId := refresh.value.value])
      ensures !(refresh.Some? && refresh.value.Updated?) ==> coordinator.data == old(coordinator.data)
    {
      var scaling := definition.scaling.GetOr(1.0);
      var register := definition.register;
      if scaling == 0.0 || register.None? {
        return None, None;
      }
      var scaled := RoundHalfEven(RawUnits(value, scaling));
      write := Some(WriteRegister(register.value - 40001, scaled));
      var outcome := coordinator.RefreshEntity(entityId, device);
      refresh := Some(outcome);
    }
  }

  lemma TimesInverse(x: real, s: real, step: real)
    requires s != 0.0 && step == 1.0 / s
    ensures x * step == x / s
  {
  }

  /** The float of `k` with `p` decimals is `k` steps of a number scaled by `10^p`. */
  lemma StepsAsFloat(d: Definition, k: int, p: nat)
    requires d.scaling == Some(Scale(p))
    ensures AsFloat(FloatValue(k, p)) == Some(k as real * NativeStep(d))
  {
    TimesInverse(k as real, Scale(p), NativeStep(d));
  }

  /**
   * Writing a value `k` steps from zero and reading it back: when the holding register at
   * the written address returns the written word as a 16-bit pattern, the refresh stores
   * `k` with the definition's decimals, and as a float that is the value written.
   */
  lemma NumberRoundTrip(defs: seq<Entry>, id: EntityId, d: Definition, k: int, p: nat,
                        device: Device, mappings: Mappings)
    requires Lookup(defs, id) == Some(d)
    requires d.entityType == Number && d.coil.None? && d.register.Some?
    requires d.registerType.GetOr(InputRegister) != OtherRegisterType
    requires d.scaling == Some(Scale(p)) && d.decimals == Some(p as int) && p > 0
    requires -32768 <= k <= 32767
    requires device(ReadHoldingRegisters(d.register.value - 40001, 1)) == Response([k % 65536], [])
    ensures NumberWrite(d, k as real * NativeStep(d)) == Some(WriteRegister(d.register.value - 40001, k))
    ensures RefreshResult(defs, id, device, mappings) == Updated(Some(FloatValue(k, p)))
    ensures AsFloat(FloatValue(k, p)) == Some(k as real * NativeStep(d))
  {
    StepWritesInteger(d, k);
    assert RefreshRequest(d) == Some(ReadHoldingRegisters(d.register.value - 40001, 1));
    RefreshOfRegister(defs, id, d, device, mappings, k % 65536, []);
    DecodeScaledWord(d, mappings, k, p);
    StepsAsFloat(d, k, p);
  }
}
