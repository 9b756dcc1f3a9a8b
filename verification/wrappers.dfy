/** The optional value used for the page's nullable state (`selectedEvent`, `selectedPhoto`). */
module Wrappers {

  /** `None` plays the part of JavaScript's `null` (or `undefined`). */
  datatype Option<+T> = None | Some(value: T)
}
