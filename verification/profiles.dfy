/** The signed-in user as every page sees it: the authentication record merged with
    the `profiles` row (`{ ...user, ...profile }`). */
module Profiles {

  /** The values of the `role` column. */
  datatype Role = Student | Teacher | Admin | Pending

  /** `name` is "" when the profile row has no name (`null`); JavaScript treats both as falsy. */
  datatype User = User(id: string, name: string, role: Role)

  /** `user.name || 'unknown'`. */
  function NameOrUnknown(u: User): string {
    if u.name == "" then "unknown" else u.name
  }
}
