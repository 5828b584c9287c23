/** The two enumerations the helpers take as arguments. */
module Enums {

  /**
   * The case style of `CaseFormat`. The names follow the code's behaviour:
   * `CamelCase` yields lowerCamelCase, `PascalCase` capitalises every word.
   */
  datatype StringCase = PascalCase | CamelCase

  /** Priority of a log record; ordered by the enumeration's integer values. */
  datatype LogWritePriority = High | Medium | Low | Insignificant
  {
    function Value(): int
    {
      match this
      case High => 10
      case Medium => 9
      case Low => 8
      case Insignificant => 0
    }
  }
}
