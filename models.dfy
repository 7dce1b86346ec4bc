/**
 * The store's entities (Tienda/Models) as values, and the small wrappers the
 * controllers need: a nullable value, a success-or-failure value and the
 * `string.IsNullOrEmpty` test the authentication endpoints apply to their input.
 */
module Models {

  /** A reference that may be null (a nullable string, an absent query parameter). */
  datatype Option<+T> = None | Some(value: T) {
    function GetOr(default: T): T {
      match this
      case Some(v) => v
      case None => default
    }
  }

  /** A value or the failure that replaced it (an exception in the source). */
  datatype Result<+R, +E> = Success(value: R) | Failure(error: E)

  /** A row of the Users table: the identity column, the user name and the stored password hash. */
  datatype User = User(id: int, username: string, passwordHash: string)

  /** A row of the CartItems table; the `Product` navigation property is not part of the row. */
  datatype CartItem = CartItem(id: int, productId: int, quantity: int)

  /** A row of the Products table; the decimal(18,2) price is kept as a number of cents. */
  datatype Product = Product(id: int, name: string, description: string, priceCents: int, imageUrl: string)

  /** `string.IsNullOrEmpty`: true for null and for "". */
  predicate IsNullOrEmpty(s: Option<string>) {
    s.None? || s.value == ""
  }
}
