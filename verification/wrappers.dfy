/** The optional value used for every child slot of both tries: a Java
    `null` reference becomes `None`, a node reference becomes `Some(node)`. */
module Wrappers {

  datatype Option<+T> = None | Some(value: T)
}
