/** The exceptions the decoder raises, named after the Python ones it models. */
module Errors {
  import opened LittleEndian

  datatype Error =
    | IndexError          // an index past the end of the buffer or of a frame
    | TypeError           // `in` applied to the missing message-type list
    | ZeroDivisionError   // a payload type byte whose low nibble is zero
    | KeyError(key: byte) // a masked payload type absent from the type table
    | StructError         // payload length differs from the unpack layout's size
}
