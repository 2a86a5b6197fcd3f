/** The optional value used for alerts that may or may not be shown and
    for a day index that may fall outside the list of target words. */
module Options {

  datatype Option<+T> = None | Some(value: T)
}
