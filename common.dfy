/** Values shared by both range computers. */
module Common {

  datatype Option<T> = None | Some(value: T)

  /**
   * A collapsible region of the editor: inclusive, zero-based line numbers.
   * Nothing in the type forces startLine <= endLine; the environment
   * computer can produce endLine == startLine - 1.
   */
  datatype FoldingRange = FoldingRange(startLine: int, endLine: int)
}
