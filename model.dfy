/** The value types shared by every layer: the tutorial record, the
    optional value that stands for Java's null, and Java's 32-bit int. */
module Model {

  /** A Java reference that may be null: None is null. */
  datatype Option<+T> = None | Some(value: T)

  /** Java's `int`, the range of a `java.lang.Integer` request parameter. */
  newtype int32 = x: int | -0x8000_0000 <= x < 0x8000_0000

  /** One row of the `tutorials` table, and the entity the layers pass around. */
  datatype Tutorial = Tutorial(id: int, title: string, description: string, published: bool)

  /** The id of a Tutorial built with the three-argument constructor, before
      any store has assigned one (the default of a Java `long` field). */
  const UnsetId: int := 0
}
