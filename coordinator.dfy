/**
 * The data update coordinator (coordinator.py): one poll cycle over the block plan,
 * which fills the value dictionary block by block and then derives the binary sensors
 * that read another entity's register, and the refresh of a single entity.
 *
 * The Modbus controller is a parameter: a `Device` answers each read request with a
 * failure, a response or an exception, and the connection check is a boolean.
 */
module Coordinator {
  import opened Wrappers
  import opened Definitions
  import opened Planner
  import opened Codec

  /** A read as the coordinator asks the controller for it: zero-based address and count. */
  datatype Request =
    | ReadInputRegisters(address: int, count: int)
    | ReadHoldingRegisters(address: int, count: int)
    | ReadCoils(address: int, count: int)

  /** `async_write_register(address, value)`. */
  datatype Write = WriteRegister(address: int, value: int)

  /**
   * What a read gives back: `ReadFailed` when the controller returns `None` or an error
   * response, `Response` with the response's register words and coil bits, `Raised` when
   * an exception escapes the controller.
   */
  datatype Reply = ReadFailed | Response(registers: seq<int>, bits: seq<bool>) | Raised

  /** The controller's answers to reads. */
  type Device = Request -> Reply

  /** Why a poll cycle raises `UpdateFailed`: the connection check failed, or an exception. */
  datatype UpdateFailed = CouldNotConnect | CommunicationError

  /** The exceptions entity properties can raise while reading the coordinator's data. */
  datatype PyError = AttributeError | TypeError

  /** The read of a whole block: register addresses are made zero-based, coil addresses are not. */
  function BlockRequest(b: Block): Request {
    match b.space
    case InputSpace => ReadInputRegisters(b.start - 30001, b.count)
    case HoldingSpace => ReadHoldingRegisters(b.start - 40001, b.count)
    case CoilSpace => ReadCoils(b.start, b.count)
  }

  // ---------------------------------------------------------------------------
  // One member of a block
  // ---------------------------------------------------------------------------

  /** `definition.get("register", definition.get("coil"))`: the address a member's offset is taken from. */
  function ReadAddress(d: Definition): Option<int> {
    if d.register.Some? then d.register else d.coil
  }

  /** Python's `s[offset]` for an offset below `|s|`; `None` when it raises `IndexError`. */
  function PyIndex<T>(s: seq<T>, offset: int): (r: Option<T>)
    requires offset < |s|
    ensures r.Some? <==> -|s| <= offset
    ensures 0 <= offset ==> r == Some(s[offset])
  {
    if 0 <= offset then Some(s[offset])
    else if -|s| <= offset then Some(s[|s| + offset])
    else None
  }

  /**
   * The value a member of a successfully read block gets from the response: a coil bit
   * as it is, a register word decoded; `None` when its offset lies beyond the response;
   * an exception when it has no address or its offset falls before the response.
   */
  function MemberRead(d: Definition, b: Block, registers: seq<int>, bits: seq<bool>, mappings: Mappings)
    : (r: Result<Option<Value>, UpdateFailed>)
    ensures ReadAddress(d).None? ==> r == Failure(CommunicationError)
    ensures ReadAddress(d).Some? && 0 <= ReadAddress(d).value - b.start ==>
              var offset := ReadAddress(d).value - b.start;
              if b.space == CoilSpace then
                r == Success(if offset < |bits| then Some(BoolValue(bits[offset])) else None)
              else
                r == Success(if offset < |registers| then ProcessRawValue(registers[offset], d, mappings) else None)
  {
    match ReadAddress(d)
    case None => Failure(CommunicationError)
    case Some(address) =>
      var offset := address - b.start;
      if b.space == CoilSpace then
        if offset < |bits| then
          match PyIndex(bits, offset)
          case Some(bit) => Success(Some(BoolValue(bit)))
          case None => Failure(CommunicationError)
        else Success(None)
      else
        if offset < |registers| then
          match PyIndex(registers, offset)
          case Some(word) => Success(ProcessRawValue(word, d, mappings))
          case None => Failure(CommunicationError)
        else Success(None)
  }

  /** What member `id` of block `b` gets from a response; a missing definition raises `KeyError`. */
  function MemberOutcome(defs: seq<Entry>, b: Block, registers: seq<int>, bits: seq<bool>, mappings: Mappings,
                         id: EntityId): Result<Option<Value>, UpdateFailed> {
    match Lookup(defs, id)
    case None => Failure(CommunicationError)
    case Some(d) => MemberRead(d, b, registers, bits, mappings)
  }

  /** What member `id` of block `b` gets from the reply to the block's read. */
  function BlockOutcome(defs: seq<Entry>, b: Block, reply: Reply, mappings: Mappings, id: EntityId)
    : Result<Option<Value>, UpdateFailed> {
    match reply
    case ReadFailed => Success(None)
    case Raised => Failure(CommunicationError)
    case Response(registers, bits) => MemberOutcome(defs, b, registers, bits, mappings, id)
  }

  // ---------------------------------------------------------------------------
  // One block
  // ---------------------------------------------------------------------------

  /** The members `ids[j..]` of a block whose read failed, each set to `None`. */
  function ClearFrom(ids: seq<EntityId>, j: nat, data: Snapshot): (r: Snapshot)
    requires j <= |ids|
    ensures forall id :: id in r <==> id in data || id in ids[j..]
    ensures forall id :: id in ids[j..] ==> r[id] == None
    ensures forall id :: id in data && id !in ids[j..] ==> r[id] == data[id]
    decreases |ids| - j
  {
    if j == |ids| then data
    else
      var r := ClearFrom(ids, j + 1, data[ids[j] := None]);
      assert ids[j..] == [ids[j]] + ids[j + 1..];
      r
  }

  /** The members `b.members[j..]` of a block written into `data` from its response, in order. */
  function FillFrom(defs: seq<Entry>, b: Block, registers: seq<int>, bits: seq<bool>, mappings: Mappings,
                    j: nat, data: Snapshot): (r: Result<Snapshot, UpdateFailed>)
    requires j <= |b.members|
    ensures r.Failure? ==> r.error == CommunicationError
    decreases |b.members| - j
  {
    if j == |b.members| then Success(data)
    else
      var id := b.members[j];
      match MemberOutcome(defs, b, registers, bits, mappings, id)
      case Failure(e) => Failure(e)
      case Success(v) => FillFrom(defs, b, registers, bits, mappings, j + 1, data[id := v])
  }

  /** The dictionary after the members of block `b` have been handled. */
  function BlockResult(defs: seq<Entry>, b: Block, reply: Reply, mappings: Mappings, data: Snapshot)
    : (r: Result<Snapshot, UpdateFailed>)
    ensures r.Failure? ==> r.error == CommunicationError
  {
    match reply
    case Raised => Failure(CommunicationError)
    case ReadFailed => Success(ClearFrom(b.members, 0, data))
    case Response(registers, bits) => FillFrom(defs, b, registers, bits, mappings, 0, data)
  }

  /** The dictionary after blocks `n..` have been read, one after another. */
  function ReadFrom(defs: seq<Entry>, blocks: seq<Block>, device: Device, mappings: Mappings, n: nat, data: Snapshot)
    : (r: Result<Snapshot, UpdateFailed>)
    requires n <= |blocks|
    ensures r.Failure? ==> r.error == CommunicationError
    decreases |blocks| - n
  {
    if n == |blocks| then Success(data)
    else
      match BlockResult(defs, blocks[n], device(BlockRequest(blocks[n])), mappings, data)
      case Failure(e) => Failure(e)
      case Success(next) => ReadFrom(defs, blocks, device, mappings, n + 1, next)
  }

  // ---------------------------------------------------------------------------
  // Derived binary sensors
  // ---------------------------------------------------------------------------

  /** Entry `e` can serve as the source of `register`: it has that register and a value in `data`. */
  predicate IsSource(e: Entry, register: int, data: Snapshot) {
    e.definition.register == Some(register) && e.id in data
  }

  /** The position of the first entry, in dictionary order, that can serve as the source. */
  function FirstSource(defs: seq<Entry>, register: int, data: Snapshot): (r: Option<nat>)
    ensures r.Some? ==> r.value < |defs| && IsSource(defs[r.value], register, data)
    ensures r.Some? ==> forall k :: 0 <= k < r.value ==> !IsSource(defs[k], register, data)
    ensures r.None? ==> forall k :: 0 <= k < |defs| ==> !IsSource(defs[k], register, data)
  {
    if defs == [] then None
    else if IsSource(defs[0], register, data) then Some(0)
    else
      match FirstSource(defs[1..], register, data)
      case None => None
      case Some(k) => Some(k + 1)
  }

  /** `source_value > 0`: a bool counts as 0 or 1, a number by its sign, a string raises `TypeError`. */
  function Positive(v: Value): (r: Result<bool, UpdateFailed>)
    ensures v.IntValue? ==> r == Success(v.i > 0)
    ensures v.FloatValue? ==> r == Success(FloatReal(v.mantissa, v.places) > 0.0)
    ensures v.BoolValue? ==> r == Success(v.b)
    ensures r.Failure? <==> v.TextValue?
  {
    match v
    case IntValue(i) => Success(i > 0)
    case FloatValue(m, p) => FloatSign(m, p); Success(m > 0)
    case BoolValue(b) => Success(b)
    case TextValue(_) => Failure(CommunicationError)
  }

  lemma FloatSign(m: int, p: int)
    ensures FloatReal(m, p) > 0.0 <==> m > 0
  {
    if p >= 0 {
      var s := Scale(p);
      assert FloatReal(m, p) * s == m as real;
    } else {
      var s := Scale(-p);
      assert FloatReal(m, p) == m as real * s;
    }
  }

  /** `source_value > 0` as the sensor stores it: `None` stays `None`, and a string raises. */
  function Compare(val: Option<Value>): (r: Result<Option<Value>, UpdateFailed>)
    ensures val.None? ==> r == Success(None)
    ensures val.Some? && Positive(val.value).Success? ==> r == Success(Some(BoolValue(Positive(val.value).value)))
    ensures r.Failure? <==> val.Some? && val.value.TextValue?
  {
    match val
    case None => Success(None)
    case Some(v) =>
      match Positive(v)
      case Failure(e) => Failure(e)
      case Success(p) => Success(Some(BoolValue(p)))
  }

  /** A stored comparison compares to itself: `None` stays `None` and `b > 0` is `b`. */
  lemma CompareTwice(val: Option<Value>)
    requires Compare(val).Success?
    ensures Compare(Compare(val).value) == Compare(val)
  {
  }

  /** `source_value`: the value of the first source of `register`, `None` when there is none. */
  function SourceValue(defs: seq<Entry>, register: int, data: Snapshot): Option<Value> {
    match FirstSource(defs, register, data)
    case None => None
    case Some(k) => data[defs[k].id]
  }

  /** The value a binary sensor derived from `register` gets from `data`. */
  function DerivedValue(defs: seq<Entry>, register: int, data: Snapshot): Result<Option<Value>, UpdateFailed> {
    Compare(SourceValue(defs, register, data))
  }

  /** The dictionary after the entries `defs[j..]` have been looked at for derived sensors. */
  function DeriveFrom(defs: seq<Entry>, j: nat, data: Snapshot): (r: Result<Snapshot, UpdateFailed>)
    requires j <= |defs|
    ensures r.Failure? ==> r.error == CommunicationError
    decreases |defs| - j
  {
    if j == |defs| then Success(data)
    else
      var e := defs[j];
      if e.definition.entityType != BinarySensorFromRegister then DeriveFrom(defs, j + 1, data)
      else
        match e.definition.register
        case None => Failure(CommunicationError)
        case Some(register) =>
          match DerivedValue(defs, register, data)
          case Failure(x) => Failure(x)
          case Success(v) => DeriveFrom(defs, j + 1, data[e.id := v])
  }

  /**
   * `_async_update_data`: a failed connection check raises; otherwise the blocks are read
   * into an empty dictionary and the derived sensors are added.
   */
  function Cycle(defs: seq<Entry>, blocks: seq<Block>, connected: bool, device: Device, mappings: Mappings)
    : (r: Result<Snapshot, UpdateFailed>)
    ensures r == Failure(CouldNotConnect) <==> !connected
  {
    if !connected then Failure(CouldNotConnect)
    else
      match ReadFrom(defs, blocks, device, mappings, 0, map[])
      case Failure(e) => Failure(e)
      case Success(data) => DeriveFrom(defs, 0, data)
  }

  // ---------------------------------------------------------------------------
  // What a poll cycle stores
  // ---------------------------------------------------------------------------

  /** Handling block `b` raises: its read raised, or one of its members raises. */
  ghost predicate BlockRaises(defs: seq<Entry>, b: Block, reply: Reply, mappings: Mappings) {
    reply.Raised?
    || exists k :: 0 <= k < |b.members| && BlockOutcome(defs, b, reply, mappings, b.members[k]).Failure?
  }

  lemma {:induction false} FillFromValues(defs: seq<Entry>, b: Block, registers: seq<int>, bits: seq<bool>,
                                          mappings: Mappings, j: nat, data: Snapshot)
    requires j <= |b.members|
    ensures var r := FillFrom(defs, b, registers, bits, mappings, j, data);
            && (r.Failure? <==>
                  exists k :: j <= k < |b.members| && MemberOutcome(defs, b, registers, bits, mappings, b.members[k]).Failure?)
            && (r.Success? ==> forall id :: id in r.value <==> id in data || id in b.members[j..])
            && (r.Success? ==> forall id :: id in b.members[j..] ==>
                  MemberOutcome(defs, b, registers, bits, mappings, id) == Success(r.value[id]))
            && (r.Success? ==> forall id :: id in data && id !in b.members[j..] ==> r.value[id] == data[id])
    decreases |b.members| - j
  {
    if j < |b.members| {
      var id := b.members[j];
      assert b.members[j..] == [id] + b.members[j + 1..];
      match MemberOutcome(defs, b, registers, bits, mappings, id)
      case Failure(_) =>
      case Success(v) =>
        FillFromValues(defs, b, registers, bits, mappings, j + 1, data[id := v]);
    }
  }

  /** Handling a block fails exactly when its read raised or one of its members raises. */
  lemma BlockFails(defs: seq<Entry>, b: Block, reply: Reply, mappings: Mappings, data: Snapshot)
    ensures BlockResult(defs, b, reply, mappings, data).Failure? <==> BlockRaises(defs, b, reply, mappings)
  {
    assert b.members[0..] == b.members;
    match reply
    case Raised =>
    case ReadFailed =>
    case Response(registers, bits) =>
      FillFromValues(defs, b, registers, bits, mappings, 0, data);
  }

  /**
   * The members of a block whose read failed are all `None`; those of a response get the
   * value their own offset gives; nothing else changes.
   */
  lemma BlockValues(defs: seq<Entry>, b: Block, reply: Reply, mappings: Mappings, data: Snapshot)
    ensures var r := BlockResult(defs, b, reply, mappings, data);
            && (r.Success? ==> forall id :: id in r.value <==> id in data || id in b.members)
            && (r.Success? ==> forall id :: id in b.members ==> BlockOutcome(defs, b, reply, mappings, id) == Success(r.value[id]))
            && (r.Success? ==> forall id :: id in data && id !in b.members ==> r.value[id] == data[id])
  {
    assert b.members[0..] == b.members;
    match reply
    case Raised =>
    case ReadFailed =>
    case Response(registers, bits) =>
      FillFromValues(defs, b, registers, bits, mappings, 0, data);
  }

  /** The outcome of block `k` of the plan, for the reply the device gives its read. */
  function PlannedOutcome(defs: seq<Entry>, blocks: seq<Block>, device: Device, mappings: Mappings, k: nat, id: EntityId)
    : Result<Option<Value>, UpdateFailed>
    requires k < |blocks|
  {
    BlockOutcome(defs, blocks[k], device(BlockRequest(blocks[k])), mappings, id)
  }

  /** `id` is a member of block `k` and of no later block. */
  predicate LastBlockOf(blocks: seq<Block>, k: nat, id: EntityId) {
    k < |blocks| && id in blocks[k].members
    && forall m :: k < m < |blocks| ==> id !in blocks[m].members
  }

  lemma {:induction false} ReadFromFails(defs: seq<Entry>, blocks: seq<Block>, device: Device, mappings: Mappings,
                                         n: nat, data: Snapshot)
    requires n <= |blocks|
    ensures ReadFrom(defs, blocks, device, mappings, n, data).Failure? <==>
              exists k :: n <= k < |blocks| && BlockRaises(defs, blocks[k], device(BlockRequest(blocks[k])), mappings)
    decreases |blocks| - n
  {
    if n < |blocks| {
      var b := blocks[n];
      var reply := device(BlockRequest(b));
      BlockFails(defs, b, reply, mappings, data);
      match BlockResult(defs, b, reply, mappings, data)
      case Failure(_) =>
      case Success(next) =>
        ReadFromFails(defs, blocks, device, mappings, n + 1, next);
    }
  }

  lemma {:induction false} ReadFromKeys(defs: seq<Entry>, blocks: seq<Block>, device: Device, mappings: Mappings,
                                        n: nat, data: Snapshot, id: EntityId)
    requires n <= |blocks| && ReadFrom(defs, blocks, device, mappings, n, data).Success?
    ensures id in ReadFrom(defs, blocks, device, mappings, n, data).value <==>
              id in data || exists k :: n <= k < |blocks| && id in blocks[k].members
    decreases |blocks| - n
  {
    if n < |blocks| {
      var b := blocks[n];
      var reply := device(BlockRequest(b));
      BlockValues(defs, b, reply, mappings, data);
      var next := BlockResult(defs, b, reply, mappings, data).value;
      ReadFromKeys(defs, blocks, device, mappings, n + 1, next, id);
    }
  }

  lemma {:induction false} ReadFromValues(defs: seq<Entry>, blocks: seq<Block>, device: Device, mappings: Mappings,
                                          n: nat, data: Snapshot, id: EntityId)
    requires n <= |blocks| && ReadFrom(defs, blocks, device, mappings, n, data).Success?
    ensures var out := ReadFrom(defs, blocks, device, mappings, n, data).value;
            && (forall k :: n <= k && LastBlockOf(blocks, k, id) ==>
                  id in out && PlannedOutcome(defs, blocks, device, mappings, k, id) == Success(out[id]))
            && (id in data && (forall k :: n <= k < |blocks| ==> id !in blocks[k].members) ==>
                  id in out && out[id] == data[id])
    decreases |blocks| - n
  {
    if n < |blocks| {
      var b := blocks[n];
      var reply := device(BlockRequest(b));
      BlockValues(defs, b, reply, mappings, data);
      var next := BlockResult(defs, b, reply, mappings, data).value;
      ReadFromValues(defs, blocks, device, mappings, n + 1, next, id);
      var out := ReadFrom(defs, blocks, device, mappings, n, data).value;
      assert out == ReadFrom(defs, blocks, device, mappings, n + 1, next).value;
      if LastBlockOf(blocks, n, id) {
        assert forall m :: n < m < |blocks| ==> id !in blocks[m].members;
      }
    }
  }

  /** No entry from `j` on defines a derived binary sensor for `id`. */
  predicate NotDerivedFrom(defs: seq<Entry>, j: nat, id: EntityId) {
    forall m :: j <= m < |defs| && defs[m].id == id ==> defs[m].definition.entityType != BinarySensorFromRegister
  }

  lemma {:induction false} DeriveKeeps(defs: seq<Entry>, j: nat, data: Snapshot, id: EntityId)
    requires j <= |defs| && NotDerivedFrom(defs, j, id)
    ensures var r := DeriveFrom(defs, j, data);
            r.Success? ==> (id in r.value <==> id in data) && (id in data ==> r.value[id] == data[id])
    decreases |defs| - j
  {
    if j < |defs| {
      var e := defs[j];
      if e.definition.entityType != BinarySensorFromRegister {
        DeriveKeeps(defs, j + 1, data, id);
      } else if e.definition.register.Some? {
        match DerivedValue(defs, e.definition.register.value, data)
        case Failure(_) =>
        case Success(v) =>
          DeriveKeeps(defs, j + 1, data[e.id := v], id);
      }
    }
  }

  /**
   * After a successful poll, an entity that is a member of exactly one block and is not a
   * derived sensor holds what its block's reply gives it: `None` for a failed read, `None`
   * for an offset past the response, otherwise its bit or its decoded word.  An entity in
   * no block and not derived has no key at all.
   */
  lemma CycleMemberValue(defs: seq<Entry>, blocks: seq<Block>, device: Device, mappings: Mappings, out: Snapshot,
                         id: EntityId)
    requires Cycle(defs, blocks, true, device, mappings) == Success(out)
    requires NotDerivedFrom(defs, 0, id)
    ensures id in out <==> exists k :: 0 <= k < |blocks| && id in blocks[k].members
    ensures forall k :: LastBlockOf(blocks, k, id) ==> PlannedOutcome(defs, blocks, device, mappings, k, id) == Success(out[id])
  {
    ReadFromKeys(defs, blocks, device, mappings, 0, map[], id);
    ReadFromValues(defs, blocks, device, mappings, 0, map[], id);
    var read := ReadFrom(defs, blocks, device, mappings, 0, map[]).value;
    DeriveKeeps(defs, 0, read, id);
  }

  /** Entry `s` is the first, in dictionary order, whose definition has `register`. */
  predicate FirstWithRegister(defs: seq<Entry>, s: nat, register: int) {
    s < |defs| && defs[s].definition.register == Some(register)
    && forall m :: 0 <= m < s ==> defs[m].definition.register != Some(register)
  }

  /** Entry `m` is a derived binary sensor among the first `i` entries. */
  predicate DerivedBefore(defs: seq<Entry>, i: nat, m: nat)
    requires m < |defs|
  {
    m < i && defs[m].definition.entityType == BinarySensorFromRegister
  }

  /**
   * `data` is the dictionary once the derive pass has handled `defs[..i]` of the read
   * `read`: every derived sensor it has reached holds the value `DerivedValue` gives its
   * register in `read`, and every other entry holds what the read gave it, if anything.
   */
  predicate DerivedSoFar(defs: seq<Entry>, i: nat, read: Snapshot, data: Snapshot) {
    forall m :: 0 <= m < |defs| ==>
      if DerivedBefore(defs, i, m) then
        && defs[m].definition.register.Some?
        && DerivedValue(defs, defs[m].definition.register.value, read).Success?
        && defs[m].id in data
        && data[defs[m].id] == DerivedValue(defs, defs[m].definition.register.value, read).value
      else
        && (defs[m].id in data <==> defs[m].id in read)
        && (defs[m].id in data ==> data[defs[m].id] == read[defs[m].id])
  }

  /**
   * Midway through the derive pass a sensor still gets the value it would get from the
   * read alone: an earlier derived sensor that now comes first for the register holds the
   * same comparison, and comparing it again changes nothing.
   */
  lemma SourceAgrees(defs: seq<Entry>, i: nat, read: Snapshot, data: Snapshot, register: int)
    requires DerivedSoFar(defs, i, read, data)
    ensures DerivedValue(defs, register, data) == DerivedValue(defs, register, read)
  {
    match FirstSource(defs, register, data) {
      case None =>
        match FirstSource(defs, register, read) {
          case None =>
          case Some(k) =>
            assert IsSource(defs[k], register, data);
        }
      case Some(m) =>
        if DerivedBefore(defs, i, m) {
          CompareTwice(SourceValue(defs, register, read));
        } else {
          forall n | 0 <= n < m
            ensures !IsSource(defs[n], register, read)
          {
            assert !IsSource(defs[n], register, data);
          }
          assert IsSource(defs[m], register, read);
          match FirstSource(defs, register, read) {
            case None =>
            case Some(k) =>
              assert k == m;
          }
        }
    }
  }

  /** One derived sensor handled: its key takes the read's value and no other key moves. */
  lemma DeriveStep(defs: seq<Entry>, i: nat, read: Snapshot, data: Snapshot)
    requires UniqueIds(defs) && i < |defs|
    requires defs[i].definition.entityType == BinarySensorFromRegister && defs[i].definition.register.Some?
    requires DerivedSoFar(defs, i, read, data)
    requires DerivedValue(defs, defs[i].definition.register.value, read).Success?
    ensures DerivedSoFar(defs, i + 1, read,
                         data[defs[i].id := DerivedValue(defs, defs[i].definition.register.value, read).value])
  {
    forall m | 0 <= m < |defs| && m != i
      ensures defs[m].id != defs[i].id
    {
    }
  }

  /** The derive pass raises at entry `j`: a `KeyError` for a derived sensor without a register, a `TypeError` for a string source value. */
  predicate DeriveRaises(defs: seq<Entry>, j: nat, read: Snapshot) {
    && j < |defs| && defs[j].definition.entityType == BinarySensorFromRegister
    && (defs[j].definition.register.None? || DerivedValue(defs, defs[j].definition.register.value, read).Failure?)
  }

  /**
   * The derive pass over a read: it raises exactly when some derived sensor raises on the
   * read alone, and otherwise every derived sensor holds its register's comparison in the
   * read while every other entry keeps what the read gave it.
   */
  lemma {:induction false} DeriveFromRead(defs: seq<Entry>, i: nat, read: Snapshot, data: Snapshot)
    requires UniqueIds(defs) && i <= |defs| && DerivedSoFar(defs, i, read, data)
    ensures DeriveFrom(defs, i, data).Failure? <==> exists j :: i <= j < |defs| && DeriveRaises(defs, j, read)
    ensures DeriveFrom(defs, i, data).Success? ==> DerivedSoFar(defs, |defs|, read, DeriveFrom(defs, i, data).value)
    decreases |defs| - i
  {
    if i < |defs| {
      var e := defs[i];
      if e.definition.entityType != BinarySensorFromRegister {
        assert DerivedSoFar(defs, i + 1, read, data) by {
          forall m | 0 <= m < |defs|
            ensures DerivedBefore(defs, i + 1, m) == DerivedBefore(defs, i, m)
          {
          }
        }
        assert !DeriveRaises(defs, i, read);
        DeriveFromRead(defs, i + 1, read, data);
      } else if e.definition.register.None? {
        assert DeriveRaises(defs, i, read);
      } else {
        var register := e.definition.register.value;
        SourceAgrees(defs, i, read, data, register);
        if DerivedValue(defs, register, read).Success? {
          assert !DeriveRaises(defs, i, read);
          DeriveStep(defs, i, read, data);
          DeriveFromRead(defs, i + 1, read, data[e.id := DerivedValue(defs, register, read).value]);
        } else {
          assert DeriveRaises(defs, i, read);
        }
      }
    }
  }

  /** The first entry with `register` in dictionary order is the first source once it is in `data`. */
  lemma FirstSourceIsFirst(defs: seq<Entry>, s: nat, register: int, data: Snapshot)
    requires FirstWithRegister(defs, s, register) && defs[s].id in data
    ensures FirstSource(defs, register, data) == Some(s)
  {
    assert IsSource(defs[s], register, data);
  }

  /**
   * After a successful poll, a derived binary sensor holds `v > 0` for the value `v` that
   * the read gave the first entry with its register (the sensor itself, another entity,
   * or an earlier derived sensor whose own value the pass has meanwhile replaced), and
   * `None` when that value is `None`.
   */
  lemma CycleDerivedValue(defs: seq<Entry>, blocks: seq<Block>, device: Device, mappings: Mappings, out: Snapshot,
                          j: nat, s: nat, k: nat, register: int)
    requires UniqueIds(defs)
    requires Cycle(defs, blocks, true, device, mappings) == Success(out)
    requires j < |defs| && defs[j].definition.entityType == BinarySensorFromRegister
    requires defs[j].definition.register == Some(register)
    requires FirstWithRegister(defs, s, register)
    requires LastBlockOf(blocks, k, defs[s].id)
    ensures PlannedOutcome(defs, blocks, device, mappings, k, defs[s].id).Success?
    ensures var val := PlannedOutcome(defs, blocks, device, mappings, k, defs[s].id).value;
            && defs[j].id in out
            && (val.None? ==> out[defs[j].id] == None)
            && (val.Some? ==> Positive(val.value).Success? && out[defs[j].id] == Some(BoolValue(Positive(val.value).value)))
  {
    ReadFromValues(defs, blocks, device, mappings, 0, map[], defs[s].id);
    var read := ReadFrom(defs, blocks, device, mappings, 0, map[]).value;
    FirstSourceIsFirst(defs, s, register, read);
    DeriveFromRead(defs, 0, read, read);
    assert DerivedBefore(defs, |defs|, j);
  }

  /**
   * A poll fails exactly when the connection check fails, a read or a member raises, or
   * the derive pass raises on the read: a derived sensor without a register, or one whose
   * source value is a string.
   */
  lemma CycleFails(defs: seq<Entry>, blocks: seq<Block>, connected: bool, device: Device, mappings: Mappings)
    requires UniqueIds(defs)
    ensures Cycle(defs, blocks, connected, device, mappings).Failure? <==>
              || !connected
              || (exists k :: 0 <= k < |blocks| && BlockRaises(defs, blocks[k], device(BlockRequest(blocks[k])), mappings))
              || (&& ReadFrom(defs, blocks, device, mappings, 0, map[]).Success?
                  && exists j :: 0 <= j < |defs| && DeriveRaises(defs, j, ReadFrom(defs, blocks, device, mappings, 0, map[]).value))
  {
    ReadFromFails(defs, blocks, device, mappings, 0, map[]);
    if connected {
      match ReadFrom(defs, blocks, device, mappings, 0, map[])
      case Failure(_) =>
      case Success(read) => DeriveFromRead(defs, 0, read, read);
    }
  }

  lemma {:induction false} DeriveNothing(defs: seq<Entry>, j: nat, data: Snapshot)
    requires j <= |defs|
    requires forall m :: j <= m < |defs| ==> defs[m].definition.entityType != BinarySensorFromRegister
    ensures DeriveFrom(defs, j, data) == Success(data)
    decreases |defs| - j
  {
    if j < |defs| {
      DeriveNothing(defs, j + 1, data);
    }
  }

  // ---------------------------------------------------------------------------
  // Refreshing one entity
  // ---------------------------------------------------------------------------

  /** The outcome of `async_refresh_entity`: a new value, nothing, or an exception. */
  datatype RefreshOutcome = Updated(value: Option<Value>) | Unchanged | RaisedError

  /**
   * The single read a refresh issues: its coil, else its register in the space the holding
   * test picks; it is the read of a one-address block where the planner places the entity.
   */
  function RefreshRequest(d: Definition): (q: Option<Request>)
    ensures q.Some? <==> Classify(d).Some?
    ensures Classify(d).Some? ==>
              q == Some(BlockRequest(Block(Classify(d).value.space, Classify(d).value.address, 1, [])))
  {
    if d.coil.Some? then Some(ReadCoils(d.coil.value, 1))
    else if d.register.Some? then
      var address := d.register.value;
      Some(if IsHolding(d, address) then ReadHoldingRegisters(address - 40001, 1)
           else ReadInputRegisters(address - 30001, 1))
    else None
  }

  /** What a refresh of `id` does: the first bit or the decoded first word of the reply. */
  function RefreshResult(defs: seq<Entry>, id: EntityId, device: Device, mappings: Mappings): (r: RefreshOutcome)
    ensures Lookup(defs, id).None? ==> r == Unchanged
    ensures r.Updated? ==> Lookup(defs, id).Some? && RefreshRequest(Lookup(defs, id).value).Some?
                           && device(RefreshRequest(Lookup(defs, id).value).value).Response?
  {
    match Lookup(defs, id)
    case None => Unchanged
    case Some(d) =>
      match RefreshRequest(d)
      case None => Unchanged
      case Some(q) =>
        match device(q)
        case ReadFailed => Unchanged
        case Raised => RaisedError
        case Response(registers, bits) =>
          if d.coil.Some? then
            if bits == [] then RaisedError else Updated(Some(BoolValue(bits[0])))
          else
            if registers == [] then RaisedError else Updated(ProcessRawValue(registers[0], d, mappings))
  }

  /**
   * A refresh and a poll agree: when the refresh's one-word reply carries the word (or bit)
   * that a block response holds at the entity's offset, the refresh stores the value the
   * poll gives the entity.  (An entity with both a coil and a register is excluded: the
   * poll takes its offset from the register, the refresh reads its coil.)
   */
  lemma RefreshAgreesWithPoll(defs: seq<Entry>, id: EntityId, b: Block, registers: seq<int>, bits: seq<bool>,
                              device: Device, mappings: Mappings, reply: seq<int>, replyBits: seq<bool>)
    requires Lookup(defs, id).Some?
    requires var d := Lookup(defs, id).value;
             && Classify(d).Some? && Classify(d).value.space == b.space
             && ReadAddress(d) == Some(Classify(d).value.address)
             && b.start <= Classify(d).value.address
             && device(RefreshRequest(d).value) == Response(reply, replyBits)
    requires var offset := Classify(Lookup(defs, id).value).value.address - b.start;
             if b.space == CoilSpace then offset < |bits| && replyBits != [] && replyBits[0] == bits[offset]
             else offset < |registers| && reply != [] && reply[0] == registers[offset]
    ensures MemberOutcome(defs, b, registers, bits, mappings, id).Success?
    ensures RefreshResult(defs, id, device, mappings) == Updated(MemberOutcome(defs, b, registers, bits, mappings, id).value)
  {
    var d := Lookup(defs, id).value;
    var offset := Classify(d).value.address - b.start;
    if b.space == CoilSpace {
      assert d.coil.Some?;
      assert MemberRead(d, b, registers, bits, mappings) == Success(Some(BoolValue(bits[offset])));
    } else {
      assert d.coil.None?;
      assert MemberRead(d, b, registers, bits, mappings) == Success(ProcessRawValue(registers[offset], d, mappings));
    }
  }

  /** A refresh of a register entity stores the decoded first word of the reply. */
  lemma RefreshOfRegister(defs: seq<Entry>, id: EntityId, d: Definition, device: Device, mappings: Mappings,
                          word: int, bits: seq<bool>)
    requires Lookup(defs, id) == Some(d) && d.coil.None? && d.register.Some?
    requires device(RefreshRequest(d).value) == Response([word], bits)
    ensures RefreshResult(defs, id, device, mappings) == Updated(ProcessRawValue(word, d, mappings))
  {
  }

  /**
   * `FroelingDataUpdateCoordinator`: the active definitions and the block plan are fixed
   * at construction; `data` is the last snapshot, `None` before the first one.
   */
  class FroelingDataUpdateCoordinator {
    const definitions: seq<Entry>
    const readBlocks: seq<Block>
    const mappings: Mappings
    var data: Option<Snapshot>

    constructor(registry: Registry, enabled: seq<EnabledCategory>, mappings: Mappings)
      ensures UniqueIds(definitions)
      ensures forall id :: Lookup(definitions, id) == LastDefining(registry, enabled, id)
      ensures NoSentinelIn(definitions) ==> IsBlockPlan(definitions, readBlocks, DefaultMaxGap, DefaultBlockSizeLimit)
      ensures this.mappings == mappings && data == None
    {
      var defs := GetActiveDefinitions(registry, enabled);
      var blocks := GroupRegisters(defs, DefaultMaxGap, DefaultBlockSizeLimit);
      definitions := defs;
      readBlocks := blocks;
      this.mappings := mappings;
      data := None;
    }

    /** `_async_update_data`, with the loops of the source. */
    method UpdateData(connected: bool, device: Device) returns (r: Result<Snapshot, UpdateFailed>)
      ensures r == Cycle(definitions, readBlocks, connected, device, mappings)
    {
      if !connected {
        return Failure(CouldNotConnect);
      }
      var snapshot: Snapshot := map[];
      for n := 0 to |readBlocks|
        invariant ReadFrom(definitions, readBlocks, device, mappings, n, snapshot)
                  == ReadFrom(definitions, readBlocks, device, mappings, 0, map[])
      {
        var block := readBlocks[n];
        var next := ReadBlock(block, device(BlockRequest(block)), snapshot);
        if next.Failure? {
          return Failure(next.error);
        }
        snapshot := next.value;
      }
      r := DeriveSensors(snapshot);
    }

    /**
     * One block of the poll: a failed read stores `None` for every member, a response
     * stores each member's value in order, and an exception ends the poll.
     */
    method ReadBlock(block: Block, reply: Reply, snapshot: Snapshot) returns (r: Result<Snapshot, UpdateFailed>)
      ensures r == BlockResult(definitions, block, reply, mappings, snapshot)
    {
      var data := snapshot;
      match reply {
        case Raised =>
          return Failure(CommunicationError);
        case ReadFailed =>
          for j := 0 to |block.members|
            invariant ClearFrom(block.members, j, data) == ClearFrom(block.members, 0, snapshot)
          {
            data := data[block.members[j] := None];
          }
          return Success(data);
        case Response(registers, bits) =>
          for j := 0 to |block.members|
            invariant FillFrom(definitions, block, registers, bits, mappings, j, data)
                      == FillFrom(definitions, block, registers, bits, mappings, 0, snapshot)
          {
            var id := block.members[j];
            match Lookup(definitions, id) {
              case None =>
                return Failure(CommunicationError);
              case Some(d) =>
                match MemberRead(d, block, registers, bits, mappings) {
                  case Failure(e) =>
                    return Failure(e);
                  case Success(v) =>
                    data := data[id := v];
                }
            }
          }
          return Success(data);
      }
    }

    /** The second pass of the poll: every derived binary sensor, in definition order. */
    method DeriveSensors(snapshot: Snapshot) returns (r: Result<Snapshot, UpdateFailed>)
      ensures r == DeriveFrom(definitions, 0, snapshot)
    {
      var data := snapshot;
      for j := 0 to |definitions|
        invariant DeriveFrom(definitions, j, data) == DeriveFrom(definitions, 0, snapshot)
      {
        var e := definitions[j];
        if e.definition.entityType == BinarySensorFromRegister {
          if e.definition.register.None? {
            return Failure(CommunicationError);
          }
          var register := e.definition.register.value;
          var k := 0;
          while k < |definitions| && !IsSource(definitions[k], register, data)
            invariant 0 <= k <= |definitions|
            invariant forall m :: 0 <= m < k ==> !IsSource(definitions[m], register, data)
          {
            k := k + 1;
          }
          var sourceValue := if k < |definitions| then data[definitions[k].id] else None;
          if sourceValue.Some? {
            match Positive(sourceValue.value) {
              case Failure(x) =>
                return Failure(x);
              case Success(p) =>
                data := data[e.id := Some(BoolValue(p))];
            }
          } else {
            data := data[e.id := None];
          }
        }
      }
      return Success(data);
    }

    /** `async_refresh_entity`: only a successful read changes `data`, and only at `id`. */
    method RefreshEntity(id: EntityId, device: Device) returns (outcome: RefreshOutcome)
      modifies this
      ensures outcome == RefreshResult(definitions, id, device, mappings)
      ensures outcome.Updated? ==> data == Some(old(data).GetOr(map[])[id := outcome.value])
      ensures !outcome.Updated? ==> data == old(data)
    {
      var found := Lookup(definitions, id);
      if found.None? {
        return Unchanged;
      }
      var d := found.value;
      var value: Option<Value> := None;
      var readSuccess := false;
      if d.coil.Some? {
        var reply := device(ReadCoils(d.coil.value, 1));
        match reply {
          case Raised =>
            return RaisedError;
          case ReadFailed =>
          case Response(_, bits) =>
            if bits == [] {
              return RaisedError;
            }
            value := Some(BoolValue(bits[0]));
            readSuccess := true;
        }
      } else if d.register.Some? {
        var address := d.register.value;
        var reply;
        if IsHolding(d, address) {
          reply := device(ReadHoldingRegisters(address - 40001, 1));
        } else {
          reply := device(ReadInputRegisters(address - 30001, 1));
        }
        match reply {
          case Raised =>
            return RaisedError;
          case ReadFailed =>
          case Response(registers, _) =>
            if registers == [] {
              return RaisedError;
            }
            value := ProcessRawValue(registers[0], d, mappings);
            readSuccess := true;
        }
      }
      if readSuccess {
        if data.None? {
          data := Some(map[]);
        }
        data := Some(data.value[id := value]);
        outcome := Updated(value);
      } else {
        outcome := Unchanged;
      }
    }
  }
}
