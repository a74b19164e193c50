/** Machine types and the numeric limits the trackers are seeded with. */
module Limits {

  /** C++ `unsigned int` (32 bits): the counter type of AggrCount. */
  newtype uint32 = x: int | 0 <= x < 0x1_0000_0000

  /** C++ `int` (32 bits): the representative numeric instantiation of AggrGlobalMax. */
  newtype int32 = x: int | -0x8000_0000 <= x < 0x8000_0000

  /** An unsigned byte, the unit `std::string` compares by. */
  newtype byte = x: int | 0 <= x < 0x100

  /** Number of values of an `unsigned int`; unsigned arithmetic wraps modulo this. */
  const UInt32Modulus: int := 0x1_0000_0000

  /** `std::numeric_limits<int>::min()`. */
  const Int32Min: int32 := -0x8000_0000

  /**
   * `std::numeric_limits<double>::max()`, the largest finite double,
   * (2^53 - 1) * 2^971, written out exactly.
   */
  const DoubleMax: real := 179769313486231570814527423731704356798070567525844996598917476803157260780028538760589558632766878171540458953514382464234321326889464182768467546703537516986049910576551282076245490090389328944075868508455133942304583236903222948165808559332123348274797826204144723168738177180919299881250404026184124858368.0

  /**
   * `std::numeric_limits<double>::min()`: NOT the lowest double but the
   * smallest positive normalised one, 2^-1022, written out exactly.
   */
  const DoubleMin: real := 1.0 / 44942328371557897693232629769725618340449424473557664318357520289433168951375240783177119330601884005280028469967848339414697442203604155623211857659868531094441973356216371319075554900311523529863270738021251442209537670585615720368478277635206809290837627671146574559986811484619929076208839082406056034304.0
}
