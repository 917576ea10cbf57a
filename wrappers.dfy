/** The "value or nothing" type the pace projector returns: `None` plays the
    part of the JavaScript `null` that signals "not computable". */
module Wrappers {

  datatype Option<+T> = None | Some(value: T)

}
