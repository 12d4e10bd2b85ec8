/** Values shared by every part of the portal model: nullable references,
    timestamps, bytes, and the outcome a controller action reports. */
module Types {

  /** A property that C# lets be null: a nullable reference or a `Nullable<T>`.
      `None` stands for null. */
  datatype Option<+T> = None | Some(value: T) {

    /** `x ?? fallback`: null is replaced by `fallback`. */
    function GetOr(fallback: T): T {
      if Some? then value else fallback
    }
  }

  /** A `DateTime` as its tick count; `default(DateTime)` is `DateTime.MinValue`, tick 0. */
  type Ticks = nat

  const DefaultTicks: Ticks := 0

  newtype byte = x: int | 0 <= x < 256

  /** A posted `IFormFile`, reduced to its length in bytes. */
  datatype Upload = Upload(length: nat)

  /** `file != null && file.Length > 0`: the upload carries content. */
  predicate HasContent(file: Option<Upload>) {
    file.Some? && file.value.length > 0
  }

  /** What an action reports back to the browser, with the rendered view left out. */
  datatype Outcome =
    | Ok            // changes saved, redirect
    | Invalid       // ModelState.IsValid was false
    | NotFound      // the id does not resolve to a row
    | IdMismatch    // route id and posted model id differ
    | MissingImage  // banner posted without an image file
    | UserExists    // registration for a username already taken

  /** A store transformer's answer: the store after the action and its outcome. */
  datatype Result<S> = Result(store: S, outcome: Outcome)
}
