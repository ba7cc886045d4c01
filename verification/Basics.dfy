/** Types that several parts of the agent share. */
module Basics {

  datatype Option<+T> = None | Some(value: T)

  /** Status of a link, of the WAN side, or as reported to the WAN Manager. */
  datatype Status = Up | Down

  type Byte = b: int | 0 <= b < 256

  /** isspace in the C locale. */
  predicate IsSpace(c: char) {
    c == ' ' || '\t' <= c <= '\r'
  }
}
