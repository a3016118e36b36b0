/** The NULL-or-value results of the buffer API (`buffer_get_text`, `buffer_get_line`)
    and the false-on-failure edits are modelled with this option type. */
module Optional {

  datatype Option<+T> = None | Some(value: T)
}
