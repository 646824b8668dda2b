/** Build-time configuration of the engine. */
module Config {
  /** The boundary every stored member value is padded to. */
  const BinaryAlignment: nat := 4
}
