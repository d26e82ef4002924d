/** The data-transfer types the queries read: employees and their positions. */
module Dto {

  /** A position category. The enumeration's constants are not part of this model;
      a position is identified by its ordinal, which is all the queries compare. */
  datatype PositionType = PositionType(ordinal: nat)

  /** An employee record. Java's `equals` on it compares all four fields,
      which is exactly datatype equality. */
  datatype Employee = Employee(id: int, name: string, rating: int, positionType: PositionType)
}
