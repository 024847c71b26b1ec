/**
 * What the contracts see of the CosmWasm host: account addresses, the
 * standard error kinds raised by storage and address validation, and the
 * transactional step every execute entry point performs.
 */
module Host {
  import opened Wrappers

  /** A validated account or contract address, kept as its string form. */
  type Addr = string

  /** The standard errors the modelled code can raise through `?`. */
  datatype StdError =
    | NotFound              // loading a storage item that was never saved
    | InvalidAddr(input: string)  // `addr_validate` rejected this input

  /**
   * One execute call: its outcome and the storage after the host's
   * transaction boundary (a failed call commits nothing).
   */
  datatype Step<S, +E> = Step(outcome: Outcome<E>, state: S)

}
