/** Small value types shared by every module of the model. */
module Common {

  /** A value that may be absent: JavaScript's `undefined`/`null`. */
  datatype Option<T> = None | Some(value: T)

  /** The outcome of a call that may throw: `Throws` is the exception path. */
  datatype Try<T> = Throws | Returns(value: T)

  /** One octet, as produced by the platform's random-byte source. */
  newtype byte = x: int | 0 <= x < 256

  /** An ASCII decimal digit: what `\d` matches and what `${n}` writes. */
  predicate IsDigit(c: char) {
    '0' <= c <= '9'
  }

  /** JavaScript truthiness of an optional string: a missing value and "" are falsy. */
  predicate Truthy(s: Option<string>) {
    s.Some? && s.value != ""
  }
}
