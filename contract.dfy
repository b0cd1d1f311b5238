/**
 * The per-network table of deployed contract addresses and the lookup that
 * resolves a (possibly omitted) chain id to the address to use, falling back
 * to the zero address, with a warning, when nothing is deployed there.
 */
module Contract {
  import opened Wrappers
  import opened Address
  import Chains

  /** The chain id substituted when the caller gives none (or gives 0): the local Hardhat node. */
  const DefaultChainId: int := Chains.HardhatChainId

  const PolygonAmoyChainId: int := 80002
  const PolygonChainId: int := 137

  /** The contract deployed on the local Hardhat node, as written in the table. */
  const HardhatContractAddress: string := "0x5FbDB2315678afecb367f032d93F642f64180aa3"

  /**
   * The per-network table; an empty string records that nothing has been
   * deployed on that network yet.
   */
  const ContractAddresses: map<int, string> := map[
    Chains.HardhatChainId := HardhatContractAddress,
    PolygonAmoyChainId := "",
    PolygonChainId := ""
  ]

  /** The addresses the table actually records (its non-empty entries). */
  function DeployedAddresses(): (deployed: set<string>)
    ensures deployed == {HardhatContractAddress}
    ensures ContractAddresses[PolygonAmoyChainId] == "" && ContractAddresses[PolygonChainId] == ""
  {
    assert ContractAddresses.Keys == {Chains.HardhatChainId, PolygonAmoyChainId, PolygonChainId};
    set id | id in ContractAddresses && ContractAddresses[id] != "" :: ContractAddresses[id]
  }

  /**
   * What one lookup produces: the address returned and whether the
   * "no contract deployed" diagnostic was logged on the way.
   */
  datatype Resolution = Resolution(address: string, warned: bool)

  /**
   * The id actually looked up. The source takes `chainId || 31337`, so an
   * omitted id and an explicit 0 (the only falsy integer) both become the
   * default, and every other id is kept as it is.
   */
  function EffectiveChainId(chainId: Option<int>): (id: int)
    ensures chainId == None || chainId == Some(0) ==> id == DefaultChainId
    ensures chainId.Some? && chainId.value != 0 ==> id == chainId.value
    ensures id != 0
  {
    match chainId
    case None => DefaultChainId
    case Some(n) => if n == 0 then DefaultChainId else n
  }

  /** Every non-empty entry of the table is a well-formed address. */
  lemma TableEntriesAreAddresses()
    ensures forall id | id in ContractAddresses && ContractAddresses[id] != "" :: IsAddress(ContractAddresses[id])
    ensures ZeroAddress !in DeployedAddresses()
  {
    // Naming the keys, and a character where the entry differs from the sentinel, spares the solver a search.
    assert ContractAddresses.Keys == {Chains.HardhatChainId, PolygonAmoyChainId, PolygonChainId};
    assert IsAddress(HardhatContractAddress);
    assert HardhatContractAddress[2] != ZeroAddress[2];
  }

  /**
   * Resolves a chain id to the contract address to use. A missing or empty
   * table entry yields the zero address and the warning; a non-empty entry
   * is returned exactly as stored, with no warning. Never fails.
   */
  function GetContractAddress(chainId: Option<int>): (r: Resolution)
    ensures var id := EffectiveChainId(chainId);
      !r.warned <==> id in ContractAddresses && ContractAddresses[id] != ""
    ensures var id := EffectiveChainId(chainId);
      !r.warned ==> id in ContractAddresses && r.address == ContractAddresses[id]
    ensures r.warned <==> r.address == ZeroAddress
    ensures r.address == ZeroAddress || r.address in DeployedAddresses()
    ensures IsAddress(r.address)
  {
    TableEntriesAreAddresses();
    ZeroAddressIsZeroBytes();
    var id := EffectiveChainId(chainId);
    // A key the table lacks indexes to the source's `undefined`, which is falsy like "".
    if id !in ContractAddresses || ContractAddresses[id] == "" then Resolution(ZeroAddress, true)
    else Resolution(ContractAddresses[id], false)
  }

  /** The local chain's entry comes back exactly as written, case included. */
  lemma HardhatResolvesToItsDeployment()
    ensures GetContractAddress(Some(31337))
      == Resolution("0x5FbDB2315678afecb367f032d93F642f64180aa3", false)
  {
  }

  /**
   * The mixed-case entry denotes the same twenty bytes as its all-lower-case
   * spelling, although the lookup returns the mixed-case string itself.
   */
  lemma HardhatAddressIgnoresCase()
    ensures AddressBytes(HardhatContractAddress).Some?
    ensures AddressBytes(HardhatContractAddress)
      == AddressBytes("0x5fbdb2315678afecb367f032d93f642f64180aa3")
    ensures GetContractAddress(Some(Chains.HardhatChainId)).address == HardhatContractAddress
  {
    SameDigitAddressesAlike(HardhatContractAddress, "0x5fbdb2315678afecb367f032d93f642f64180aa3");
    HardhatResolvesToItsDeployment();
  }

  /** Omitting the id and passing 0 both behave exactly like passing 31337. */
  lemma OmittedOrZeroIsDefault()
    ensures GetContractAddress(None) == GetContractAddress(Some(DefaultChainId))
    ensures GetContractAddress(Some(0)) == GetContractAddress(Some(DefaultChainId))
  {
  }

  /** Networks listed with an empty entry get the sentinel and the warning. */
  lemma UndeployedNetworksResolveToZero()
    ensures GetContractAddress(Some(PolygonAmoyChainId)) == Resolution(ZeroAddress, true)
    ensures GetContractAddress(Some(PolygonChainId)) == Resolution(ZeroAddress, true)
  {
  }

  /** Any id the table does not list gets the sentinel and the warning. */
  lemma UnknownChainResolvesToZero(id: int)
    requires id != 0 && id !in ContractAddresses
    ensures GetContractAddress(Some(id)) == Resolution(ZeroAddress, true)
  {
  }

  /** The result depends on the argument only through the id it resolves to. */
  lemma ResultDependsOnlyOnEffectiveId(a: Option<int>, b: Option<int>)
    requires EffectiveChainId(a) == EffectiveChainId(b)
    ensures GetContractAddress(a) == GetContractAddress(b)
  {
  }

  /**
   * The default is the chain the client is configured to use locally, and it
   * resolves to a deployed, well-formed address without a warning.
   */
  lemma DefaultIsDeployedLocalChain()
    ensures GetContractAddress(None) == Resolution(HardhatContractAddress, false)
    ensures GetContractAddress(None).address != ZeroAddress
    ensures AddressBytes(GetContractAddress(None).address).Some?
  {
  }
}
