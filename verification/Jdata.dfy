/** Constants that several kinds of dictionaries share. */
module Jdata {
  const ENDPTR := 0             // no child, no next node
  const SAKUJO_HINSI := 0xfffe  // part of speech of a deleted word
}
