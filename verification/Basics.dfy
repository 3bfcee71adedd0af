/** What several parts of the model share. */
module Basics {
  datatype Option<T> = None | Some(value: T)

  /** Values of a 64-bit word. */
  const WORD_LIMIT: nat := 0x1_0000_0000_0000_0000

  function One(b: bool): nat { if b then 1 else 0 }
}
