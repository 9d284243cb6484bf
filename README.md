# Fröling Lambdatronic Modbus: register engine

A Dafny model of the register-mapping engine of the Fröling Lambdatronic Modbus
integration for Home Assistant, with proofs about it. The model covers:

- **Selection.** Picking the active entity definitions from the configuration's enabled
  categories (`definitions.dfy`).
- **Block planner.**
  - Each definition is classified as a coil, holding register or input register.
  - The addresses of each space are sorted.
  - They are greedily merged into read blocks, bounded by a maximum gap and a block size
    limit (`planner.dfy`).
- **Decoder.** Turning one raw register word into a value (`codec.dfy`):
  - a select index is passed through;
  - a text label comes from a mapping table, with an `Unknown (<raw>)` fallback;
  - otherwise the word is taken as two's complement, then scaled and rounded.
- **Poll cycle.** It builds the value dictionary from the block plan and the device's
  replies, then adds the binary sensors derived from another entity's register
  (`coordinator.dfy`).
- **Single-entity refresh.** It updates one key of the coordinator's live data
  (`coordinator.dfy`).
- **Number entity.** Bounds, step, value, and the scaled write of a new value
  (`number.dfy`).
- **Select entity.** Current option, and the write of the index of a chosen label
  (`select.dfy`).

The shared `Option` and `Result` types are in `wrappers.dfy`.

The model takes the same form as the source:

- Selection, grouping and poll are methods with loops, each proved against a specification:
  - the selection gives each id the definition of the reference function `LastDefining`,
    with keys in first-occurrence order;
  - the grouping loop meets the declarative greedy-plan predicate `IsGreedyPlan`;
  - the poll is equal to the recursive function `Cycle`.
  The properties are lemmas about those functions and that predicate.
- The sort by address is the function `SortByAddress`, an insertion sort proved sorted,
  stable and a permutation.
- The refresh is a method without a loop, proved equal to the non-recursive function
  `RefreshResult`.
- The decoder and the entity properties are functions.
- The coordinator and the two entities are classes. Only the coordinator's `data` field
  changes after construction.

Modbus I/O is a parameter `device: Request -> Reply`. A reply is one of three things:

- `ReadFailed`: the controller returned nothing or an error response.
- `Response(registers, bits)`.
- `Raised`: an exception escaped the read.

The connection check is a boolean parameter. The entity definition registry and the
mapping tables are also parameters, since their contents are not part of this model. Floats
are exact: a decoded value with `p` decimals is `FloatValue(m, p)`, standing for `m / 10^p`.
Rounding is Python's `round`, ties to even, on real numbers.

## Model

| member | source | states |
|---|---|---|
| Definitions.Lookup | custom_components/froeling_lambdatronic_modbus/coordinator.py:150 | `dict.get`: `None` exactly when no entry has the id; in a dictionary without repeated keys, the definition of the entry that has it |
| Definitions.PutIds | custom_components/froeling_lambdatronic_modbus/coordinator.py:64 | assigning a key keeps the key order when the key exists, otherwise appends it |
| Definitions.PutLookup | custom_components/froeling_lambdatronic_modbus/coordinator.py:64 | after assigning `id`, looking up `id` gives the new definition and every other key is unchanged |
| Definitions.PutUnique | custom_components/froeling_lambdatronic_modbus/coordinator.py:64 | assignment never duplicates a key |
| Definitions.LastDefiningIsSome | custom_components/froeling_lambdatronic_modbus/coordinator.py:59-63 | an id is selected exactly when some enabled category known to the registry lists it and that category's table defines it |
| Definitions.HitsLookup | custom_components/froeling_lambdatronic_modbus/coordinator.py:59-64 | the last assignment of an id in the double loop is the definition from the last enabled category that defines it |
| Definitions.PutAllIsDictionary | custom_components/froeling_lambdatronic_modbus/coordinator.py:58-64 | assigning a list of entries to `{}` gives a dictionary with unique keys, in first-occurrence order, each holding its last assigned definition |
| Definitions.SelectionIsDictionary | custom_components/froeling_lambdatronic_modbus/coordinator.py:56-65 | the same for the whole selection: unique keys, first-occurrence order, last defining category wins |
| Definitions.GetActiveDefinitions | custom_components/froeling_lambdatronic_modbus/coordinator.py:56-65 | the nested selection loop returns a duplicate-free dictionary; each id maps to its last defining category's definition; ids keep their first-occurrence order |
| Planner.ClassifyRules | custom_components/froeling_lambdatronic_modbus/coordinator.py:77-97 | (the placement rules written out case by case; the consequences are in CandidatesPlacement, BlockMembersPlaced and RefreshRequest) a definition is placed iff it has a coil or a register; a coil wins; otherwise a number or select type, an address in [40001, 50000) or `register_type == "holding"` gives holding, else input |
| Planner.SortByAddressSpec | custom_components/froeling_lambdatronic_modbus/coordinator.py:104 | the key sort gives an address-ordered permutation of the items (and of their ids) that keeps items with equal addresses in their original order |
| Planner.InsertStable | custom_components/froeling_lambdatronic_modbus/coordinator.py:104 | inserting one item appends it to the items of its address and leaves the other addresses' items alone |
| Planner.StepPreserves | custom_components/froeling_lambdatronic_modbus/coordinator.py:110-145 | one pass of the grouping loop (open, split or join, then close at the last item) keeps the invariant that the closed blocks and the open block fit the greedy rule |
| Planner.GroupSorted | custom_components/froeling_lambdatronic_modbus/coordinator.py:106-145 | the grouping loop yields blocks of its space; when no address is -1 they are the greedy plan of the sorted list |
| Planner.GroupRegisters | custom_components/froeling_lambdatronic_modbus/coordinator.py:67-146 | with no address equal to -1, the blocks are the input, holding and coil plans in that order, each the greedy plan of its sorted list |
| Planner.GreedyPlanPartition | custom_components/froeling_lambdatronic_modbus/coordinator.py:110-145 | the members of a plan's blocks, in order, are exactly the ids of the sorted list |
| Planner.GreedyPlanUnique | custom_components/froeling_lambdatronic_modbus/coordinator.py:110-145 | a sorted list has only one greedy plan |
| Planner.GreedyBlockBounds | custom_components/froeling_lambdatronic_modbus/coordinator.py:117-144 | a block starts at its first member's address and ends at its last member's address (`count = last - start + 1`), and its count is 1 or below the size limit |
| Planner.GreedyBlockGaps | custom_components/froeling_lambdatronic_modbus/coordinator.py:117-139 | inside a block, neighbouring addresses ascend by at most `max_gap`, so a gap equal to `max_gap` never splits; the count is positive |
| Planner.GreedySplitRule | custom_components/froeling_lambdatronic_modbus/coordinator.py:117-134 | each next block starts because the gap from the last address exceeds `max_gap` or the span would reach the size limit |
| Planner.CandidatesCount | custom_components/froeling_lambdatronic_modbus/coordinator.py:77-97 | an active id appears in the list of a space once if its placement is in that space, else not at all |
| Planner.CandidatesPlacement | custom_components/froeling_lambdatronic_modbus/coordinator.py:77-97 | each item of a space's list carries the address its definition is placed at |
| Planner.EachEntityInExactlyOneBlock | custom_components/froeling_lambdatronic_modbus/coordinator.py:77-146 | every active definition with a coil or a register is a member of exactly one block, and one with neither is a member of none |
| Planner.BlockMembersPlaced | custom_components/froeling_lambdatronic_modbus/coordinator.py:77-146 | every block member is placed in the block's space; member addresses ascend from `start` to `start + count - 1` with gaps of at most `max_gap`; the count is 1 or below the limit |
| Codec.RoundHalfEven | custom_components/froeling_lambdatronic_modbus/coordinator.py:297 | `round(x)` lies within 0.5 of `x`, and a tie goes to the even integer |
| Codec.RoundHalfEvenUnique | custom_components/froeling_lambdatronic_modbus/coordinator.py:297 | those two properties determine `round(x)` |
| Codec.RoundToDecimals | custom_components/froeling_lambdatronic_modbus/coordinator.py:299 | `round(x, d)` as the mantissa `m` of `m * 10^-d`: `m` lies within 0.5 of `x * 10^d` (of `x / 10^-d` for negative `d`), and a tie goes to the even integer |
| Codec.RoundToDecimalsExact | custom_components/froeling_lambdatronic_modbus/coordinator.py:299 | `round(k / 10^d, d)` has mantissa `k` |
| Codec.DecimalRoundTrip | custom_components/froeling_lambdatronic_modbus/coordinator.py:282-283 | reading the digits of `str(n)` back gives `n` |
| Codec.IntToDecimalInjective | custom_components/froeling_lambdatronic_modbus/coordinator.py:282-283 | distinct integers have distinct `str` |
| Codec.UnknownLabelInjective | custom_components/froeling_lambdatronic_modbus/coordinator.py:282-283 | two fallback labels are equal iff the raw values are |
| Codec.ToSigned | custom_components/froeling_lambdatronic_modbus/coordinator.py:285-287 | for input and holding registers (input when absent) a 16-bit word maps into [-32768, 32767], congruent modulo 65536; other register types and words up to 32767 are unchanged |
| Codec.ToSignedOfWord | custom_components/froeling_lambdatronic_modbus/coordinator.py:285-287 | a signed value in [-32768, 32767] is the signed reading of its 16-bit pattern |
| Codec.TextLabel | custom_components/froeling_lambdatronic_modbus/coordinator.py:279-283 | the mapping entry when the mapping name is set, known and holds the raw value, otherwise `Unknown (<raw>)` |
| Codec.ProcessRawValue | custom_components/froeling_lambdatronic_modbus/coordinator.py:272-299 | select gives the raw value; text gives its label; otherwise `None` exactly for scaling 0, an integer within 0.5 of the signed word over the scaling when decimals are 0, with a tie going to the even integer (725 over 10 gives 72), and the rounded value with the given decimals otherwise |
| Codec.DecodeScaledWord | custom_components/froeling_lambdatronic_modbus/coordinator.py:285-299 | with scaling `10^p` and `p` decimals, the 16-bit pattern of a signed word `w` decodes to `w / 10^p` exactly |
| Codec.DecodeWholeWord | custom_components/froeling_lambdatronic_modbus/coordinator.py:285-297 | with scaling 1 and no decimals, the 16-bit pattern of a signed word decodes to the word |
| Codec.DecoderExamples | custom_components/froeling_lambdatronic_modbus/coordinator.py:285-297 | 725 and 735 over 10 round to 72 and 74; 0xFFFF reads as -1, or 0 over 10; scaling 0 gives `None` |
| Coordinator.PyIndex | custom_components/froeling_lambdatronic_modbus/coordinator.py:237-245 | Python indexing below the length: defined exactly down to `-len`, and the plain element for a non-negative offset |
| Coordinator.MemberRead | custom_components/froeling_lambdatronic_modbus/coordinator.py:231-249 | a member without register or coil raises; at a non-negative offset a coil block gives the raw bit and a register block the decoded word, and an offset past the response gives `None` |
| Coordinator.ClearFrom | custom_components/froeling_lambdatronic_modbus/coordinator.py:227-228 | a failed block read adds every member with `None` and changes no other key |
| Coordinator.FirstSource | custom_components/froeling_lambdatronic_modbus/coordinator.py:255-261 | the first entry, in dictionary order, with the register and a key in the data; none when no entry qualifies |
| Coordinator.Positive | custom_components/froeling_lambdatronic_modbus/coordinator.py:263 | `v > 0`: an integer or a float by its sign, a bool as 0 or 1, and a string raises |
| Coordinator.Cycle | custom_components/froeling_lambdatronic_modbus/coordinator.py:199-200 | the cycle fails with "could not connect" exactly when the connection check fails |
| Coordinator.BlockFails | custom_components/froeling_lambdatronic_modbus/coordinator.py:205-249 | handling a block fails exactly when its read raised or one of its members raises |
| Coordinator.BlockValues | custom_components/froeling_lambdatronic_modbus/coordinator.py:220-249 | after a block, its members are keys holding their own outcome for the reply (`None` for a failed read); other keys are unchanged |
| Coordinator.ReadFromFails | custom_components/froeling_lambdatronic_modbus/coordinator.py:204-250 | the block pass fails exactly when some block raises |
| Coordinator.ReadFromKeys | custom_components/froeling_lambdatronic_modbus/coordinator.py:204-250 | after the block pass an id is a key exactly when it was one before or belongs to a block |
| Coordinator.ReadFromValues | custom_components/froeling_lambdatronic_modbus/coordinator.py:204-250 | after the block pass a member holds the outcome of the last block it belongs to; a key in no block keeps its value |
| Coordinator.DeriveKeeps | custom_components/froeling_lambdatronic_modbus/coordinator.py:251-265 | the derive pass leaves alone every key that no entry derives |
| Coordinator.Compare | custom_components/froeling_lambdatronic_modbus/coordinator.py:262-265 | `None` stays `None`; otherwise the sensor stores the bool `v > 0`, and a string raises |
| Coordinator.CompareTwice | custom_components/froeling_lambdatronic_modbus/coordinator.py:262-265 | comparing a stored comparison again gives the same value, since `b > 0` is `b` for a bool |
| Coordinator.SourceAgrees | custom_components/froeling_lambdatronic_modbus/coordinator.py:251-265 | midway through the derive pass, a sensor gets the same value, or raises the same way, as it would on the read alone, even when an earlier derived sensor now comes first for its register |
| Coordinator.DeriveStep | custom_components/froeling_lambdatronic_modbus/coordinator.py:262-265 | handling one derived sensor sets only its own key |
| Coordinator.DeriveFromRead | custom_components/froeling_lambdatronic_modbus/coordinator.py:251-268 | the derive pass over a read raises exactly when some derived sensor lacks a register (`KeyError`) or has a string source value in the read (`TypeError`); otherwise every derived sensor holds its register's comparison in the read and every other entity keeps its read value and keyset membership |
| Coordinator.DeriveNothing | custom_components/froeling_lambdatronic_modbus/coordinator.py:251-252 | without derived sensors the derive pass changes nothing |
| Coordinator.CycleMemberValue | custom_components/froeling_lambdatronic_modbus/coordinator.py:197-270 | after a successful poll a non-derived entity is a key iff it is in some block and holds what its last block's reply gives it: `None` for a failed read or a short response, else its bit or decoded word |
| Coordinator.CycleDerivedValue | custom_components/froeling_lambdatronic_modbus/coordinator.py:197-270 | after a successful poll a derived sensor holds (v > 0) for the value v its first same-register entry was read with (itself, another entity, or an earlier derived sensor whose own value the pass replaced), or `None` when v is `None` |
| Coordinator.CycleFails | custom_components/froeling_lambdatronic_modbus/coordinator.py:199-268 | a poll fails exactly when the connection check fails, a read raises, a member raises, or the derive pass raises on the read: a derived sensor without a register or with a string source value |
| Coordinator.RefreshRequest | custom_components/froeling_lambdatronic_modbus/coordinator.py:154-182 | a refresh reads exactly when the planner places the entity, with the one-address read of the block the planner would use |
| Coordinator.RefreshResult | custom_components/froeling_lambdatronic_modbus/coordinator.py:148-188 | an unknown entity is left unchanged; an update happens only after a successful reply to the entity's read |
| Coordinator.RefreshAgreesWithPoll | custom_components/froeling_lambdatronic_modbus/coordinator.py:160-187 | when the one-address reply carries the word or bit that a block response holds at the entity's offset, the refresh stores what the poll would store |
| Coordinator.RefreshOfRegister | custom_components/froeling_lambdatronic_modbus/coordinator.py:165-187 | a refresh of a register entity with a one-word reply stores the decoded word |
| Coordinator.FroelingDataUpdateCoordinator.constructor | custom_components/froeling_lambdatronic_modbus/coordinator.py:34-46 | the coordinator holds the selected definitions and their block plan with the defaults 5 and 122, and no data yet |
| Coordinator.FroelingDataUpdateCoordinator.UpdateData | custom_components/froeling_lambdatronic_modbus/coordinator.py:197-270 | the polling method returns the cycle function's result, so all the cycle lemmas apply to it |
| Coordinator.FroelingDataUpdateCoordinator.ReadBlock | custom_components/froeling_lambdatronic_modbus/coordinator.py:205-249 | the loops over one block's members compute the block's result function |
| Coordinator.FroelingDataUpdateCoordinator.DeriveSensors | custom_components/froeling_lambdatronic_modbus/coordinator.py:251-265 | the derive loop, with its inner source search, computes the derive function |
| Coordinator.FroelingDataUpdateCoordinator.RefreshEntity | custom_components/froeling_lambdatronic_modbus/coordinator.py:148-195 | only a successful read changes `data`, and only at `entity_id` (creating the dictionary when it is absent); an unknown entity or a failed read leaves `data` as it was |
| Number.NativeStep | custom_components/froeling_lambdatronic_modbus/number.py:64-68 | the step times the scaling is 1 when the scaling is not 0, and the step is 1.0 when it is |
| Number.NumberWrite | custom_components/froeling_lambdatronic_modbus/number.py:83-94 | no write exactly when the scaling is 0 or the register is missing; otherwise the write goes to `register - 40001` with a value within 0.5 of `value * scaling`, a tie going to the even integer (2.5 writes 2); the bounds are not consulted |
| Number.StepWritesInteger | custom_components/froeling_lambdatronic_modbus/number.py:64-90 | a value of `k` steps is written as the raw word `k` |
| Number.AsFloat | custom_components/froeling_lambdatronic_modbus/number.py:76-79 | `float(value)` is defined for every stored value except a string |
| Number.StepsAsFloat | custom_components/froeling_lambdatronic_modbus/number.py:64-77 | `k` with `p` decimals, as a float, is `k` steps of an entity scaled by `10^p` |
| Number.NumberRoundTrip | custom_components/froeling_lambdatronic_modbus/number.py:64-95 | writing `k` steps and reading the same holding register back stores `k / 10^p`, and `native_value` gives back the value written |
| Number.FroelingNumber.constructor | custom_components/froeling_lambdatronic_modbus/number.py:43-68 | min defaults to 0, max to 100, and the step is derived from the scaling |
| Number.FroelingNumber.NativeValue | custom_components/froeling_lambdatronic_modbus/number.py:70-79 | raises exactly when the coordinator holds no data; `None` when the data has no value for the entity; otherwise the stored value as a float |
| Number.FroelingNumber.SetNativeValue | custom_components/froeling_lambdatronic_modbus/number.py:81-95 | issues the encoded write; a refresh follows exactly when a write was issued, and only that refresh changes the data |
| Select.IndexOf | custom_components/froeling_lambdatronic_modbus/select.py:81 | `options.index(option)` is the first position holding the label |
| Select.OptionAt | custom_components/froeling_lambdatronic_modbus/select.py:70-73 | `options[index]` iff `0 <= index < len(options)` (a bool counts as 0 or 1), `None` otherwise; a float in range and a string raise `TypeError` |
| Select.SelectWrite | custom_components/froeling_lambdatronic_modbus/select.py:77-88 | no write exactly when the label is unknown or the register is missing; otherwise the label's first position, written at `register - 40001` |
| Select.SelectRoundTrip | custom_components/froeling_lambdatronic_modbus/select.py:70-81 | `current_option` of the written index is the selected label |
| Select.SelectIndexOfShown | custom_components/froeling_lambdatronic_modbus/select.py:70-81 | with no repeated labels, selecting the label shown at `i` writes `i` |
| Select.SelectRefreshRoundTrip | custom_components/froeling_lambdatronic_modbus/select.py:75-89 | the refresh after a selection reads the written holding address, and a device returning the written word there makes the select show the chosen label |
| Select.FroelingSelect.constructor | custom_components/froeling_lambdatronic_modbus/select.py:65 | the options default to the empty list |
| Select.FroelingSelect.CurrentOption | custom_components/froeling_lambdatronic_modbus/select.py:67-73 | raises when the coordinator holds no data; otherwise the option at the stored index, which is always one of the options |
| Select.FroelingSelect.SelectOption | custom_components/froeling_lambdatronic_modbus/select.py:75-89 | issues the write of the first index; a refresh follows exactly when a write was issued, and only that refresh changes the data |

## Left out

- I/O:
  - The Modbus controller, network I/O and its lock are replaced by the `device` parameter and the `connected` flag. `modbus_controller.py` is not part of this model.
  - Number and select writes are outputs of the methods, not device calls. The write's own result is not modelled: the source refreshes whatever it returns. An exception raised by the write, which would skip the refresh, is not modelled either.
- Home Assistant plumbing: the update interval, listener notification, unique ids, names, translations, units, number mode and device info.
- Other files: the platform setup functions, `sensor.py`, `binary_sensor.py`, `__init__.py` and `config_flow.py` are not part of this model.
- Registry and mappings: the contents of `entity_definitions.py` are not part of this model. The registry and the mapping tables are parameters.
- Floating point: values are exact reals and decimals, not binary floats. Representation artefacts of `round(x, d)` and `value * scaling` are not modelled.
- Planner.GroupSorted: models the `-1` "no block open" sentinel as written. The greedy-plan contracts (and those of Planner.GroupRegisters) hold only when no address is -1. An item at -1 makes the loop treat the open block as absent. That case is not characterised.
- Number.AsFloat: `float()` of a stored string gives `None` here. The source would parse a string that spells a number. Stored strings are mapping labels or `Unknown (<raw>)`.
- Coordinator.CycleMemberValue: stated for entities that are not derived sensors. Derived sensors are covered by Coordinator.CycleDerivedValue and Coordinator.DeriveFromRead.
- Coordinator.RefreshAgreesWithPoll: excludes a definition with both a coil and a register. The poll takes such a member's offset from its register inside a coil block, while the planner and the refresh use its coil.
- Number.FroelingNumber.SetNativeValue: the min and max bounds are not checked before writing, as in the source.
- Select.SelectRefreshRoundTrip: stated for a select without a coil. A select with a coil writes its register but refreshes from its coil.
