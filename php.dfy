/**
 * The few PHP and SQL value notions the migration script depends on.
 *
 * Every column the script reads from a database may be SQL NULL, so a column
 * value is an `Option<string>`; `None` stands for NULL. Command-line arguments
 * are always strings.
 */
module Php {

  datatype Option<+T> = None | Some(value: T)

  /** PHP `empty()` on a string: only the empty string and "0" are empty (no trimming). */
  predicate EmptyString(s: string)
  {
    s == "" || s == "0"
  }

  /** PHP `empty()` on a nullable column value: NULL, "" and "0". */
  predicate Empty(v: Option<string>)
  {
    v.None? || EmptyString(v.value)
  }
}
