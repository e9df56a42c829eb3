/** The optional value used for the places where the evaluation script raises and
    catches an exception, or where a dictionary lookup may miss. */
module Wrappers {

  datatype Option<+T> = None | Some(value: T)

}
