/** The chain the web client treats as its local development network. */
module Chains {

  /** Chain id of the local Hardhat node the client is configured for. */
  const HardhatChainId: int := 31337
}
