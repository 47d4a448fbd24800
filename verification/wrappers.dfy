/** The optional value the pool's pointer-returning calls produce: `None` stands for NULL. */
module Wrappers {

  datatype Option<+T> = None | Some(value: T)

}
