// The Option type stands for a nullable pointer of the C sources.
module Wrappers {

  datatype Option<+T> = None | Some(value: T)
}
