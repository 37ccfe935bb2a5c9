/** The optional-value datatype shared by the modules of this model. */
module Options {

  /** `None` stands for a failed external step (a subprocess or network
      call whose error makes the program exit); `Some` carries its output. */
  datatype Option<+T> = None | Some(value: T)
}
