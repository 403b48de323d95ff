/** The optional value used wherever the source has "no result": a decode
    that threw, a search that found nothing, a buffer without a byte-order mark. */
module Wrappers {

  datatype Option<+T> = None | Some(value: T)

}
