/** The errors the encoder and the layout-descriptor parser can report. */
module Errors {

  datatype Error =
      /** `NewSdifTag("")`: the layout string is empty. */
      EmptyDescriptor
      /** A comma-separated piece that does not split into exactly two parts on `=`. */
    | BadPair(piece: seq<char>)
      /** `start` or `len` is present but `strconv.Atoi` rejects its value. */
    | BadInt(key: seq<char>, text: seq<char>)
      /** The record's constant tag is not two bytes long. */
    | InvalidTag(length: nat)
      /** `b[lo:hi]` with bounds outside `0 <= lo <= hi <= 162`: a Go run-time panic. */
    | SlicePanic(lo: int, hi: int)
      /** The formatted value has more bytes than the field. */
    | FieldTooLong(length: nat, width: nat)
      /** The sink accepted a byte count other than 162. */
    | WriteIncomplete(written: int)
      /** An error reported by the sink, passed through unchanged. */
    | SinkError(id: nat)
}
