/** An optional value: Java's nullable references and `Optional`, and JavaScript's
    `undefined`/`NaN` outcomes, are all modelled with it. */
module Wrappers {

  datatype Option<+T> = None | Some(value: T)
}
