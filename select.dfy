/**
 * The select entity (select.py): a holding register holding the position of one label in
 * the definition's list of options.
 */
module Select {
  import opened Wrappers
  import opened Definitions
  import opened Codec
  import opened Coordinator

  /** `options.index(option)`: the first position of `option`. */
  function IndexOf(options: seq<string>, option: string): (i: nat)
    requires option in options
    ensures i < |options| && options[i] == option
    ensures forall k :: 0 <= k < i ==> options[k] != option
  {
    if options[0] == option then 0 else 1 + IndexOf(options[1..], option)
  }

  /** `options[i]` when `0 <= i < len(options)`, else `None`. */
  function InRange(options: seq<string>, i: int): Option<string> {
    if 0 <= i < |options| then Some(options[i]) else None
  }

  /**
   * `current_option` for a stored value: the label at an integer index (a bool counts as
   * 0 or 1), `None` for a missing value or an index out of range.  A float in range
   * cannot index a list and a string cannot be compared with 0: both raise `TypeError`.
   */
  function OptionAt(options: seq<string>, index: Option<Value>): (r: Result<Option<string>, PyError>)
    ensures index.None? ==> r == Success(None)
    ensures index.Some? && index.value.IntValue? ==> r == Success(InRange(options, index.value.i))
    ensures index.Some? && index.value.BoolValue? ==> r == Success(InRange(options, if index.value.b then 1 else 0))
    ensures index.Some? && index.value.FloatValue? ==>
              var x := FloatReal(index.value.mantissa, index.value.places);
              r == if 0.0 <= x < |options| as real then Failure(TypeError) else Success(None)
    ensures index.Some? && index.value.TextValue? ==> r == Failure(TypeError)
    ensures r.Success? && r.value.Some? ==> r.value.value in options
  {
    match index
    case None => Success(None)
    case Some(v) =>
      match v
      case IntValue(i) => Success(InRange(options, i))
      case BoolValue(b) => Success(InRange(options, if b then 1 else 0))
      case FloatValue(m, p) =>
        if 0.0 <= FloatReal(m, p) < |options| as real then Failure(TypeError) else Success(None)
      case TextValue(_) => Failure(TypeError)
  }

  /**
   * The write `async_select_option(option)` issues: none for an unknown label or a missing
   * register, otherwise the label's first position at the zero-based holding address.
   */
  function SelectWrite(d: Definition, options: seq<string>, option: string): (w: Option<Write>)
    ensures w.None? <==> option !in options || d.register.None?
    ensures w.Some? ==> w.value.address == d.register.value - 40001
    ensures w.Some? ==> 0 <= w.value.value < |options| && options[w.value.value] == option
    ensures w.Some? ==> forall k :: 0 <= k < w.value.value ==> options[k] != option
  {
    if option !in options || d.register.None? then None
    else Some(WriteRegister(d.register.value - 40001, IndexOf(options, option)))
  }

  /** Every label a select can show is one it can write: the written position shows it again. */
  lemma SelectRoundTrip(options: seq<string>, d: Definition, option: string)
    requires option in options && d.register.Some?
    ensures SelectWrite(d, options, option).Some?
    ensures OptionAt(options, Some(IntValue(SelectWrite(d, options, option).value.value))) == Success(Some(option))
  {
  }

  /** With no repeated labels, selecting the label shown at `i` writes `i` again. */
  lemma SelectIndexOfShown(options: seq<string>, i: int)
    requires 0 <= i < |options|
    requires forall a, b :: 0 <= a < b < |options| ==> options[a] != options[b]
    ensures IndexOf(options, options[i]) == i
  {
  }

  /**
   * The refresh after a selection reads the written register back: for a select without a
   * coil it reads one holding register at the written address, and when the device returns
   * the written word there the entity stores that index, which shows the chosen label.
   */
  lemma SelectRefreshRoundTrip(defs: seq<Entry>, id: EntityId, d: Definition, option: string,
                               device: Device, mappings: Mappings, bits: seq<bool>)
    requires Lookup(defs, id) == Some(d)
    requires d.entityType == Select && d.coil.None? && d.register.Some?
    requires option in d.options.GetOr([])
    requires var w := SelectWrite(d, d.options.GetOr([]), option).value;
             device(ReadHoldingRegisters(w.address, 1)) == Response([w.value], bits)
    ensures var w := SelectWrite(d, d.options.GetOr([]), option).value;
            RefreshRequest(d) == Some(ReadHoldingRegisters(w.address, 1))
            && RefreshResult(defs, id, device, mappings) == Updated(Some(IntValue(w.value)))
            && OptionAt(d.options.GetOr([]), Some(IntValue(w.value))) == Success(Some(option))
  {
    SelectRoundTrip(d.options.GetOr([]), d, option);
  }

  /** `FroelingSelect`: the options are fixed at construction. */
  class FroelingSelect {
    const coordinator: FroelingDataUpdateCoordinator
    const entityId: EntityId
    const definition: Definition
    const options: seq<string>

    constructor(coordinator: FroelingDataUpdateCoordinator, entityId: EntityId)
      requires Lookup(coordinator.definitions, entityId).Some?
      ensures this.coordinator == coordinator && this.entityId == entityId
      ensures definition == Lookup(coordinator.definitions, entityId).value
      ensures options == definition.options.GetOr([])
    {
      this.coordinator := coordinator;
      this.entityId := entityId;
      var d := Lookup(coordinator.definitions, entityId).value;
      definition := d;
      options := d.options.GetOr([]);
    }

    /** `current_option`: `data.get` on absent data raises `AttributeError`. */
    function CurrentOption(): (r: Result<Option<string>, PyError>)
      reads coordinator
      ensures coordinator.data.None? ==> r == Failure(AttributeError)
      ensures coordinator.data.Some? ==> r == OptionAt(options, StoredValue(coordinator.data.value, entityId))
      ensures r.Success? && r.value.Some? ==> r.value.value in options
    {
      match coordinator.data
      case None => Failure(AttributeError)
      case Some(data) => OptionAt(options, StoredValue(data, entityId))
    }

    /**
     * `async_select_option`: an unknown label or a missing register writes nothing and
     * refreshes nothing; otherwise the position is written and the entity refreshed.
     */
    method SelectOption(option: string, device: Device) returns (write: Option<Write>, refresh: Option<RefreshOutcome>)
      modifies coordinator
      ensures write == SelectWrite(definition, options, option)
      ensures refresh.Some? <==> write.Some?
      ensures refresh.Some? ==> refresh.value == RefreshResult(coordinator.definitions, entityId, device, coordinator.mappings)
      ensures refresh.Some? && refresh.value.Updated? ==>
                coordinator.data == Some(old(coordinator.data).GetOr(map[])[entityId := refresh.value.value])
      ensures !(refresh.Some? && refresh.value.Updated?) ==> coordinator.data == old(coordinator.data)
    {
      if option !in options {
        return None, None;
      }
      var index := IndexOf(options, option);
      var register := definition.register;
      if register.None? {
        return None, None;
      }
      write := Some(WriteRegister(register.value - 40001, index));
      var outcome := coordinator.RefreshEntity(entityId, device);
      refresh := Some(outcome);
    }
  }
}
