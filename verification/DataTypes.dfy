/** Entity types and the largest counter value each can carry (internal/datatype). */
module DataTypes {
  import Int64

  datatype DataType = Int | Long | Snowflake | Uuid8 | Uuid12 | Uuid16 | Uuid22 {
    predicate IsNumeric() {
      Int? || Long?
    }

    predicate IsUuid() {
      Uuid8? || Uuid12? || Uuid16? || Uuid22?
    }

    predicate IsCounter() {
      IsNumeric() || IsUuid()
    }

    function UuidLength(): nat {
      match this
      case Uuid8 => 8
      case Uuid12 => 12
      case Uuid16 => 16
      case Uuid22 => 22
      case _ => 0
    }

    function MaxValue(): int {
      match this
      case Int => MAX_INT
      case Uuid8 => MAX_UUID8
      case Long => Int64.MAX
      case Uuid12 => Int64.MAX
      case Uuid16 => Int64.MAX
      case Uuid22 => Int64.MAX
      case Snowflake => 0
    }
  }

  const MAX_INT: int := 2147483647
  const MAX_UUID8: int := 218340105584895

  /** Every type but snowflake is backed by a counter, whose IDs are either numbers or texts of some length. */
  lemma KindsOfTypes(dt: DataType)
    ensures dt.IsCounter() <==> dt != Snowflake
    ensures dt.IsCounter() ==> (dt.IsUuid() <==> !dt.IsNumeric())
    ensures dt.IsUuid() <==> dt.UuidLength() > 0
  {
  }
}
