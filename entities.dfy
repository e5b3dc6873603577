/** The identifiable entities the repository stores. */
module Entities {

  /** A 128-bit globally unique identifier; only its equality is ever used. */
  newtype Guid = x: int | 0 <= x < 0x1_0000_0000_0000_0000_0000_0000_0000_0000

  /** A stored entity: its identifier (`BaseEntity.Id`) and the rest of its fields. */
  datatype Entity<+P> = Entity(id: Guid, payload: P)

  /** A role attached to an employee, copied by value when an employee is built. */
  datatype Role = Role(name: string, description: string)

  /** The fields of an employee besides its identifier; the count is a C# `int` with no range check. */
  datatype Employee = Employee(
    firstName: string,
    lastName: string,
    email: string,
    appliedPromocodesCount: int,
    roles: seq<Role>)
}
