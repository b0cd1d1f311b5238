# Contract-address resolution for the Aero web client

The web client keeps a fixed table from chain id to the address of its
deployed contract (`CONTRACT_ADDRESSES`). It resolves the network the wallet
reports with `getContractAddress(chainId?)`. The table lists three networks:

- the local Hardhat node, 31337, with a real address;
- Polygon Amoy, 80002, with an empty entry, meaning nothing is deployed there yet;
- Polygon, 137, also with an empty entry.

The lookup works in three steps:

1. It replaces a missing or falsy id with 31337.
2. It indexes the table.
3. If the entry is missing or empty, it logs a warning and returns the all-zero address. Otherwise it returns the entry exactly as stored.

The project models that table and that lookup. It proves, for every possible argument:

- which address comes back;
- when the warning is logged;
- that every result is a well-formed 20-byte address.

Files:

- `wrappers.dfy`: `Option`, which stands for an argument that may be omitted.
- `address.dfy`: the zero-address sentinel, and a definition of the output format that the lookup promises. The source writes this format only as the return type `` `0x${string}` `` and never computes it. The format is `0x` plus forty hexadecimal digits of either case (`IsAddress`), and such a string reads as twenty bytes (`HexDigitValue`, `DecodeHex`, `AddressBytes`). Two general facts come with it: digits of equal value decode alike, whatever their case (`SameHexDigitsDecodeAlike`, `SameDigitAddressesAlike`); and a run of `0` digits decodes to zero bytes (`ZeroDigitsDecodeToZeroBytes`). These members give the vocabulary for the properties below. They model no line of the source, so they have no row in the table.
- `chains.dfy`: the chain id the client's wallet configuration uses for the local Hardhat node (`apps/web/lib/config/wagmi.ts:6`). The page's wrong-network check expects the same id. The lookup's default id and the table's Hardhat key are both defined as this constant.
- `contract.dfy`: the table, the lookup and the properties of the lookup.

The logged warning is a side effect. It is modelled as the `warned` flag of the result `Resolution(address, warned)`.

## Model

| member | source | states |
|---|---|---|
| `Address.ZeroDigitAddressIsZeroBytes` | apps/web/lib/config/contract.ts:14 | any `0x` string of forty `0` digits is an address whose twenty bytes are all zero |
| `Address.ZeroAddressIsZeroBytes` | apps/web/lib/config/contract.ts:14 | the sentinel returned on the fallback path is a well-formed address whose twenty bytes are all zero |
| `Contract.DeployedAddresses` | apps/web/lib/config/contract.ts:2-6 | the only address the table records as deployed is the Hardhat one, `0x5FbDB2315678afecb367f032d93F642f64180aa3`; the other two entries are empty |
| `Contract.EffectiveChainId` | apps/web/lib/config/contract.ts:9 | an omitted id and an explicit 0 both become 31337, any other id is kept unchanged, and the id looked up is never 0 |
| `Contract.HardhatAddressIgnoresCase` | apps/web/lib/config/contract.ts:3 | the mixed-case Hardhat entry is a well-formed address and denotes the same twenty bytes as its all-lower-case spelling; the lookup still returns the mixed-case string itself |
| `Contract.TableEntriesAreAddresses` | apps/web/lib/config/contract.ts:2-6 | every non-empty table entry is a well-formed address, and none of them is the zero sentinel |
| `Contract.GetContractAddress` | apps/web/lib/config/contract.ts:8-18 | indexing covers both a missing key (the source's `undefined`) and an empty entry: no warning exactly when the resolved id has a non-empty entry, which is then returned unchanged; the warning is logged exactly when the sentinel is returned; every result is the sentinel or a deployed table entry, and every result is a well-formed address; the function is total |
| `Contract.HardhatResolvesToItsDeployment` | apps/web/lib/config/contract.ts:3-17 | chain 31337 resolves to `0x5FbDB2315678afecb367f032d93F642f64180aa3`, character for character, with no warning |
| `Contract.OmittedOrZeroIsDefault` | apps/web/lib/config/contract.ts:9 | calling with no id, or with 0, gives exactly the result of calling with 31337 |
| `Contract.UndeployedNetworksResolveToZero` | apps/web/lib/config/contract.ts:4-14 | Polygon Amoy (80002) and Polygon (137), listed with empty entries, resolve to the zero address with the warning |
| `Contract.UnknownChainResolvesToZero` | apps/web/lib/config/contract.ts:10-14 | any non-zero id that the table does not list resolves to the zero address with the warning |
| `Contract.ResultDependsOnlyOnEffectiveId` | apps/web/lib/config/contract.ts:8-18 | two arguments that resolve to the same id give the same result, so the result depends only on that id and the constant table |
| `Contract.DefaultIsDeployedLocalChain` | apps/web/lib/config/contract.ts:9 | calling with no id, which means the Hardhat chain of the wallet configuration, returns the Hardhat entry with no warning; that entry is a well-formed address other than the sentinel |

## Left out

- The warning text (`No contract deployed on chain <id>`) and `console.warn` itself are I/O. The model keeps only whether the warning is logged.
- Chain ids are modelled as mathematical integers. JavaScript numbers that are not integers are left out. `NaN` is falsy, so it would become 31337, like 0. A fractional id is never a table key, so it would get the sentinel.
- Indexing the table converts the number to a property name. For integer ids that is the same as looking up an integer key, and that is how it is modelled.
- The mixed-case Hardhat entry is an EIP-55 checksummed address. The source never checks the checksum, so neither does the model. Checking it would need Keccak-256.
- The code has no network-metadata lookup. It does no case or prefix normalisation: entries come back unchanged. It does not validate the table at load time (no duplicate-key or address-format check). The address format is proved here as a property of the fixed table instead.
- The wallet configuration in `apps/web/lib/config/wagmi.ts` is calls into RainbowKit, viem and wagmi, whose behaviour is not visible. Only its Hardhat chain id is modelled (`Chains.HardhatChainId`).
- The pages, layout, providers and connect button under `apps/web/app` and `apps/web/components` only render and compose. That includes the wrong-network flag in `apps/web/app/page.tsx:11` and the address truncation in `apps/web/components/connect-button.tsx:15`.
- Determinism has no lemma of its own. Every Dafny function is deterministic, and `Contract.ResultDependsOnlyOnEffectiveId` states what the result depends on.
