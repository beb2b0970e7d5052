/** What `do_bidi` works on: a line of characters and one byte per character for types and levels. */
module BidiChars {
  /** A character cell: the code point as received, as displayed, and its column. */
  datatype BidiChar = BidiChar(origwc: nat, wc: nat, index: nat)
}
