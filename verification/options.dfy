/** Results that may be absent. The processor's C entry points signal
    "nothing here" by returning 0: `registerProcess` when its allocation
    fails and `config` for a name the table does not hold. */
module Options {

  datatype Option<+T> = None | Some(value: T)

}
