/** The optional-value datatype shared by every module: `None` stands for the
    JavaScript value NaN, a thrown exception, or a failed decode, depending on
    where it is returned. */
module Outcomes {

  datatype Option<+T> = None | Some(value: T)
}
