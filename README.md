# PipeFabric incremental aggregates and related-value trackers, in Dafny

This project models the small stateful reducers of the PipeFabric stream
engine that grouping operators and pattern states call once per tuple:

- `AggrCount` — a retraction-aware counter. Each new tuple adds one and each
  outdated (retracted) tuple subtracts one. The counter is an `unsigned int`,
  so it wraps modulo 2^32.
- `AggrGlobalMax` — the maximum over a whole stream. It is seeded with
  `numeric_limits<Tin>::min()`, updated with `std::max` and refuses
  retractions. Its `std::string` specialisation seeds with the one-character
  string holding byte 0x0F.
- `RelatedStateValueMin` / `RelatedStateValueMax` — the extreme of one field of
  the events in a pattern state. They are seeded with `numeric_limits<double>::max()`
  and `numeric_limits<double>::min()` and only ever move in one direction.

Each tracker is a Dafny class with the source's one mutable field. Its
methods change that field in place. A ghost history records the inputs since
the last (re)initialisation, and `Valid()` ties the field to a function of
that history:

- `Counting.Net` — the signed sum of +1/-1 steps, wrapped by `Counting.Wrap`.
- `Extremum.Fold` — the left fold of `std::max` (`Extremum.Max`) from the seed.

Lemmas about these functions state what the source promises for a whole run:
- the count is additions minus retractions modulo 2^32, whatever the interleaving;
- the extreme is the greatest of the seed and all inputs, whatever their order and repetitions;
- the value is monotone;
- the seeds are exactly the constants the code uses, including where they beat real inputs.

Modules: `Limits` (machine types and numeric limits), `Extremum` (the shared
running-extremum fold), `ByteStrings` (`std::string` ordering), `Counting`,
`GlobalMax`, `RelatedValue` (the event-field projection), `RelatedMin`,
`RelatedMax`.

Modelling choices:
- A `double` is modelled as a Dafny `real`. The trackers only assign and
  compare with `<`, `>` and `std::max`, and on finite doubles these agree
  with exact rationals.
- `numeric_limits<double>::max()` is written out exactly as (2^53 - 1) * 2^971.
- `numeric_limits<double>::min()` is written out exactly as 2^-1022, the
  smallest positive normalised double.
- `std::string` is a sequence of bytes, ordered lexicographically with bytes
  compared as unsigned chars, as `std::char_traits<char>` does.
- `AggrGlobalMax` is generic in its input type. The type's `operator<` and
  the value `init` assigns are constructor arguments, standing for the
  template argument. The factory methods `GlobalMax.NewInt32Max` and
  `GlobalMax.NewStringMax` build the `int` and `std::string` instances with
  their own seeds.
- `std::get<Index>(e)` becomes a projection function `field` given to the
  tracker's constructor.

Two edge cases of the code that the model keeps:
- Count is `unsigned int` (AggrCount.hpp:50), so a retraction from 0 gives 4294967295.
- The `std::string` specialisation seeds with "\x0F" (AggrGlobalMax.hpp:70-73),
  so the empty string and any string starting with a byte below 0x0F never
  become the maximum.

## Model

| member | source | states |
|---|---|---|
| `Counting.Wrap` | src/qop/aggr_functions/AggrCount.hpp:50 | the `unsigned int` value congruent to an integer modulo 2^32 |
| `Counting.NetIsAddsMinusRetractions` | src/qop/aggr_functions/AggrCount.hpp:62-67 | the net effect of a run of `iterate` calls is additions minus retractions, independent of their interleaving |
| `Counting.AddAndRetractCancel` | src/qop/aggr_functions/AggrCount.hpp:67 | an addition and a retraction, in either order, leave the wrapped count unchanged |
| `Counting.RetractFromZeroWraps` | src/qop/aggr_functions/AggrCount.hpp:50-67 | a retraction on a freshly initialised counter gives 4294967295 |
| `Counting.AggrCount.constructor` | src/qop/aggr_functions/AggrCount.hpp:58-64 | a new counter holds 0 with an empty history |
| `Counting.AggrCount.Init` | src/qop/aggr_functions/AggrCount.hpp:62-64 | `init` resets the counter to 0 and forgets the history |
| `Counting.AggrCount.Iterate` | src/qop/aggr_functions/AggrCount.hpp:66-68 | the new count is the old one plus 1 (minus 1 when outdated) modulo 2^32; it depends on nothing but the old count and the flag, never on `data` |
| `Counting.AggrCount.Value` | src/qop/aggr_functions/AggrCount.hpp:70-72 | returns the counter without changing it; it equals (additions - retractions) mod 2^32 since the last `init` |
| `Counting.AddThenRetract` | src/qop/aggr_functions/AggrCount.hpp:67 | adding any tuple and then retracting any tuple leaves the counter as it was |
| `Counting.RetractThenAdd` | src/qop/aggr_functions/AggrCount.hpp:67 | retracting and then adding leaves the counter as it was, even across the wrap at 0 |
| `Extremum.Max` | src/qop/aggr_functions/AggrGlobalMax.hpp:56 | `std::max` returns one of its two arguments |
| `Extremum.MaxIsUpperBound` | src/qop/aggr_functions/AggrGlobalMax.hpp:56 | `std::max(m, d)` is at least `m`, at least `d`, and one of them |
| `Extremum.MaxIdempotent` | src/qop/aggr_functions/AggrGlobalMax.hpp:56 | taking the same input twice in a row leaves the state after the first |
| `Extremum.Fold` | src/qop/aggr_functions/AggrGlobalMax.hpp:50-57 | the state after a run is the seed or one of the inputs |
| `Extremum.FoldIsGreatest` | src/qop/aggr_functions/AggrGlobalMax.hpp:50-57 | the state after a run is the greatest of the seed and all inputs |
| `Extremum.FoldAppend` | src/qop/aggr_functions/AggrGlobalMax.hpp:56 | a run split in two is the second part continued from the state the first part reached |
| `Extremum.FoldSameElements` | src/qop/aggr_functions/AggrGlobalMax.hpp:50-57 | the result depends only on which inputs arrived: not their order, not repetitions |
| `Extremum.FoldPermutation` | src/qop/aggr_functions/AggrGlobalMax.hpp:50-57 | any reordering of the inputs gives the same maximum |
| `Extremum.FoldMonotone` | src/qop/aggr_functions/AggrGlobalMax.hpp:56 | more inputs never lower the value |
| `Extremum.SeedWins` | src/qop/aggr_functions/AggrGlobalMax.hpp:50-57 | when no input exceeds the seed, the value stays the seed |
| `Extremum.LeastSeedNeverWins` | src/qop/aggr_functions/AggrGlobalMax.hpp:51 | when the seed is below every value of the type, a non-empty run reports one of its inputs |
| `ByteStrings.LexLessIsStrictTotalOrder` | src/qop/aggr_functions/AggrGlobalMax.hpp:56 | `operator<` on strings is a strict total order, so `std::max` on strings yields a true maximum |
| `GlobalMax.AggrGlobalMax.constructor` | src/qop/aggr_functions/AggrGlobalMax.hpp:46-52 | a new aggregate holds the seed with an empty history |
| `GlobalMax.AggrGlobalMax.Init` | src/qop/aggr_functions/AggrGlobalMax.hpp:50-52 | `init` resets the maximum to the seed and forgets the history |
| `GlobalMax.AggrGlobalMax.Iterate` | src/qop/aggr_functions/AggrGlobalMax.hpp:54-57 | only callable with `outdated == false`; the new maximum is the old one or `data`, at least both, and changes iff old < `data` |
| `GlobalMax.NewInt32Max` | src/qop/aggr_functions/AggrGlobalMax.hpp:46-52 | an `AggrGlobalMax<int>` starts at `numeric_limits<int>::min()`, ordered by `int`'s `<`, with an empty history |
| `GlobalMax.NewStringMax` | src/qop/aggr_functions/AggrGlobalMax.hpp:70-73 | an `AggrGlobalMax<std::string>` starts at the one-character string "\x0F", ordered by string `<`, with an empty history |
| `GlobalMax.AggrGlobalMax.Value` | src/qop/aggr_functions/AggrGlobalMax.hpp:59-61 | returns the maximum without changing it; it is the greatest of the seed and all inputs since `init` |
| `GlobalMax.Int32SeedNeverWins` | src/qop/aggr_functions/AggrGlobalMax.hpp:51 | for `int`, the seed `numeric_limits<int>::min()` is never reported once an input has arrived |
| `GlobalMax.StringSeedBeatsSmallerInputs` | src/qop/aggr_functions/AggrGlobalMax.hpp:70-73 | for `std::string`, inputs below "\x0F" never replace the seed |
| `GlobalMax.EmptyStringIsNeverTheMaximum` | src/qop/aggr_functions/AggrGlobalMax.hpp:70-73 | after `init` and `iterate("")` the value is "\x0F", not the empty string |
| `GlobalMax.StringMaxIgnoresEmptyString` | src/qop/aggr_functions/AggrGlobalMax.hpp:70-73 | a string aggregate built and fed the empty string reports "\x0F" |
| `RelatedValue.Project` | src/cep/relatedvalue/RelatedStateValueMin.hpp:48 | each event contributes exactly its selected field, in event order |
| `RelatedValue.OnlyFieldIsRead` | src/cep/relatedvalue/RelatedStateValueMin.hpp:48 | events that agree on the selected field are indistinguishable to a tracker |
| `RelatedMin.RelatedStateValueMin.constructor` | src/cep/relatedvalue/RelatedStateValueMin.hpp:63-65 | a new tracker holds `numeric_limits<double>::max()` |
| `RelatedMin.RelatedStateValueMin.UpdateValue` | src/cep/relatedvalue/RelatedStateValueMin.hpp:47-52 | the field replaces the minimum iff it is strictly smaller; afterwards the minimum is at most the old one and at most the field |
| `RelatedMin.RelatedStateValueMin.InitValue` | src/cep/relatedvalue/RelatedStateValueMin.hpp:57-59 | exactly the effect of `updateValue`; no reset to the seed |
| `RelatedMin.RelatedStateValueMin.GetValue` | src/cep/relatedvalue/RelatedStateValueMin.hpp:39-41 | returns the minimum without changing it; it is the least of the seed and the fields of all events |
| `RelatedMin.MinNonIncreasing` | src/cep/relatedvalue/RelatedStateValueMin.hpp:47-52 | the minimum never rises over any sequence of updates |
| `RelatedMin.MinIgnoresOrderAndRepeats` | src/cep/relatedvalue/RelatedStateValueMin.hpp:47-65 | the minimum depends only on which field values arrived: repeating or reordering events changes nothing |
| `RelatedMax.RelatedStateValueMax.constructor` | src/cep/relatedvalue/RelatedStateValueMax.hpp:63-65 | a new tracker holds `numeric_limits<double>::min()`, the smallest positive double |
| `RelatedMax.RelatedStateValueMax.UpdateValue` | src/cep/relatedvalue/RelatedStateValueMax.hpp:47-52 | the field replaces the maximum iff it is strictly greater; afterwards the maximum is at least the old one and at least the field |
| `RelatedMax.RelatedStateValueMax.InitValue` | src/cep/relatedvalue/RelatedStateValueMax.hpp:57-59 | exactly the effect of `updateValue`; no reset to the seed |
| `RelatedMax.RelatedStateValueMax.GetValue` | src/cep/relatedvalue/RelatedStateValueMax.hpp:39-41 | returns the maximum without changing it; it is the greatest of the seed and the fields of all events |
| `RelatedMax.MaxNonDecreasing` | src/cep/relatedvalue/RelatedStateValueMax.hpp:47-52 | the maximum never falls over any sequence of updates |
| `RelatedMax.MaxIgnoresOrderAndRepeats` | src/cep/relatedvalue/RelatedStateValueMax.hpp:47-65 | the maximum depends only on which field values arrived, not their order |
| `RelatedMax.SeedSurvivesSmallerValues` | src/cep/relatedvalue/RelatedStateValueMax.hpp:47-65 | the seed is positive, and when no field value exceeds it (e.g. all negative) the tracker keeps reporting the seed |

## Left out

- Floating point: NaN, infinities and signed zero are not modelled.
- Conversions between `StorageType`, `ResultType` and the field type are not modelled.
- The conversion of the `double` seeds to an integral `StorageType` is not modelled. With such a type, `numeric_limits<double>::min()` becomes 0 and `numeric_limits<double>::max()` overflows.
- `Counting.AggrCount.Value` returns the `unsigned int` counter; the conversion to the result type `Tres` is not modelled.
- `GlobalMax.AggrGlobalMax.Iterate` requires `outdated == false`, as the source's `assert` does. A build with assertions disabled would treat a retraction as an ordinary input; that is not modelled.
- `AggrGlobalMax` instantiations other than `int` and `std::string` are covered only by the generic lemmas, and only when their `operator<` is a strict total order (the lemmas assume one, while `std::max` itself needs only a strict weak order). For `double`, the seed is the same positive constant as `RelatedStateValueMax` uses.
- The base classes `AggregateFunc` and `RelatedStateValue` are not part of this model. The code that decides when `initValue` rather than `updateValue` is called is not part of it either.
- The destructors do nothing and are not modelled.
- The topology integration tests in src/test/TopologyTest.cpp are not modelled: file sources, sockets, threads and tables.
- The message-broker source in src/net/RabbitMQSource.cpp is not modelled: network I/O over an external library.
