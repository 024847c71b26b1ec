# ICNS name registry — Dafny model

This project models three pieces of the ICNS (Interchain Name Service)
registry and proves properties about them:

- **Name-nft guard checks** (`NameNftChecks`, `name_nft_checks.dfy`). These are
  three checks over the name-token contract's configuration:
  - the global "transferrable" gate,
  - admin membership, a linear scan of the admin list,
  - the name-format rule that rejects `.`.
- **Name-service registry** (`NameService`, `name_service.dfy`):
  - `instantiate` validates the admin and registrar lists and saves the config;
  - `execute_set_record` inserts into the write-once `OWNER` map (user name → owner);
  - `query_resolver` is an optional lookup in the resolver bucket;
  - the config query returns the saved config.
- **Resolver record store** (`Resolver`, `resolver.dfy`, with `PrefixOrder` and
  `Bech32Prefix`). It is a state machine in which each user name goes from
  unset to set once:
  - `SetRecord` binds a list of (network prefix, bech32 address) pairs to a name;
  - `GetAddresses` reads the pairs back, sorted ascending by prefix.
  `ResolverScenarios` restates the resolver's three set-record test scenarios
  as lemmas.

Contract storage is a Dafny datatype value. Each execute entry point is a
function that returns a `Host.Step`: the outcome (`Pass` or `Fail(error)`)
and the storage after the call. The host's `addr_validate` is a parameter
`valid: string -> bool`. The bech32 checksum is a parameter
`checksumOk: string -> bool`. The name-nft contract appears to the resolver
as a `NameNft` value: its admin configuration and its token owners. This
value stands in for the answers of the resolver's cross-contract queries.

The resolver's contract code is not modelled; its behaviour is taken from
its set-record tests. Where the tests say nothing, the model makes these
choices:
- checks run in this order: write-once, then authorisation (a name-nft
  admin or the token's owner), then every pair's address check;
- the first pair that fails the address check is the one reported;
- a repeated prefix in one submission keeps its last address, because a
  record holds one address per prefix;
- an empty submission is accepted and marks the name as taken.

The model follows the name-service code as written:
- `execute_set_record` performs no admin check. Line 65 of `contract.rs` is
  only a comment saying one should be added.
- Its `addresses` argument is never stored.
- Its error is `UserAlreadyRegistered { name }`.
- The name-service `Config` holds only admins and registrars.
- `query_resolver` reads the resolver bucket, and nothing in the
  name-service contract writes that bucket. A registration is therefore never visible through that query.
  `NameService.SetRecordLeavesResolverQuery` states this.

`check_transferrable` takes no caller, so its answer is the same for every
sender by construction. None of the checks can modify the configuration
because they are pure functions of it.

## Model

| member | source | states |
|---|---|---|
| NameNftChecks.CheckTransferrable | contracts/name-nft/src/checks.rs:5-13 | passes iff a config is saved and its transferrable flag is set; with no config it fails with NotFound, otherwise with Unauthorized |
| NameNftChecks.AdminScan | contracts/name-nft/src/checks.rs:18-22 | the early-return scan finds the sender iff some position of the admin list holds it |
| NameNftChecks.CheckAdmin | contracts/name-nft/src/checks.rs:15-25 | passes iff a config is saved and the sender is one of its admins; otherwise NotFound (no config) or Unauthorized |
| NameNftChecks.NoAdminsRefusesEveryone | contracts/name-nft/src/checks.rs:18-24 | with an empty admin list every sender gets Unauthorized |
| NameNftChecks.CheckAdminOnlyMembership | contracts/name-nft/src/checks.rs:18-22 | two admin lists with the same members give the same answer for every sender, whatever their order or duplicates |
| NameNftChecks.ChecksIndependent | contracts/name-nft/src/checks.rs:5-25 | the admin check ignores the transfer flag and the transfer gate ignores the admin list |
| NameNftChecks.ValidateName | contracts/name-nft/src/checks.rs:27-33 | a name passes iff no character of it is `.`; a rejected name always gets InvalidName |
| NameNftChecks.EmptyNameAccepted | contracts/name-nft/src/checks.rs:27-33 | the empty name is accepted |
| NameNftChecks.ValidateNameConcat | contracts/name-nft/src/checks.rs:27-33 | a concatenation passes iff both parts pass |
| NameNftChecks.DottedNameRejected | contracts/name-nft/src/checks.rs:28-30 | any name of the form `label.rest` is rejected with InvalidName |
| NameService.ValidateAll | contracts/name-service/src/contract.rs:25-33 | succeeds iff every entry is valid, then returns the entries unchanged and in order; otherwise reports the first invalid entry |
| NameService.Instantiate | contracts/name-service/src/contract.rs:19-42 | succeeds iff all admins and registrars are valid, and then saves exactly those lists in order and changes nothing else; otherwise saves nothing and reports the first invalid admin, or when all admins are valid the first invalid registrar |
| NameService.InstantiateThenQueryConfig | contracts/name-service/src/contract.rs:35-39 | after a valid instantiation the config query returns the input admin and registrar lists |
| NameService.ExecuteSetRecord | contracts/name-service/src/contract.rs:57-79 | fails with NotFound when no config is saved and with UserAlreadyRegistered carrying the requested name when the name is taken; a failure changes nothing; a success adds only the requested name, bound to the given owner, and keeps every other entry, the config and the resolver bucket |
| NameService.SetRecordWriteOnce | contracts/name-service/src/contract.rs:69-77 | after a successful registration any later one for the same name fails with UserAlreadyRegistered and the first owner stays |
| NameService.SetRecordIgnoresSenderAndAddresses | contracts/name-service/src/contract.rs:57-79 | the call's result and storage do not depend on the caller or on the submitted addresses |
| NameService.SetRecordLeavesResolverQuery | contracts/name-service/src/contract.rs:89-101 | a registration never changes what the resolver query returns for any name |
| NameService.InstantiateEnablesSetRecord | contracts/name-service/src/contract.rs:57-79 | after a valid instantiation any unregistered name can be registered by any caller |
| NameService.QueryResolver | contracts/name-service/src/contract.rs:89-101 | returns None iff the name has no resolver record, and otherwise that record's resolver address |
| NameService.QueryConfig | contracts/name-service/src/contract.rs:85 | returns the saved config, or NotFound before instantiation |
| Bech32Prefix.HumanReadablePart | contracts/resolver/src/tests/set_record.rs:169-195 | None iff the address has no `1`; otherwise the lower-case form of everything before the last `1`, the part a bech32 decoder reports |
| Bech32Prefix.ValidPair | contracts/resolver/src/tests/set_record.rs:169-195 | a pair is accepted iff the checksum verifies and the lower-cased text before the address's last `1` equals the claimed prefix |
| Bech32Prefix.UpperCaseAddressLowerCasePrefix | contracts/resolver/src/tests/set_record.rs:169-195 | an all-upper-case address (`A12UEL5L`, human-readable part `a`) is accepted under the prefix `a` and rejected under `A` |
| Bech32Prefix.LastIndexOf | contracts/resolver/src/tests/set_record.rs:183-195 | returns the position of the last occurrence of the character, with no later occurrence, and None iff the character does not occur |
| Bech32Prefix.HumanReadablePartOfCompose | contracts/resolver/src/tests/set_record.rs:183-195 | splitting `hrp 1 data` at the separator (data free of `1`) gives back hrp in lower case |
| Bech32Prefix.ValidPairComposed | contracts/resolver/src/tests/set_record.rs:197-210 | an address with a verifying checksum is accepted under the lower-case form of its own human-readable part |
| Bech32Prefix.MismatchedPrefixRejected | contracts/resolver/src/tests/set_record.rs:183-195 | an address is rejected under any prefix other than the lower-case form of its human-readable part, even with a valid checksum |
| Bech32Prefix.BadChecksumRejected | contracts/resolver/src/tests/set_record.rs:169-181 | an address whose checksum fails is rejected under every prefix |
| PrefixOrder.Insert | contracts/resolver/src/tests/set_record.rs:73-79 | inserting into a prefix-sorted record keeps it strictly sorted and adds exactly the inserted prefix to its prefixes |
| PrefixOrder.InsertFind | contracts/resolver/src/tests/set_record.rs:74-79 | after inserting, the inserted prefix maps to the inserted address and every other prefix keeps its address |
| PrefixOrder.InsertMultiset | contracts/resolver/src/tests/set_record.rs:74-79 | inserting a pair with a new prefix adds exactly that pair and nothing else |
| PrefixOrder.Canonical | contracts/resolver/src/tests/set_record.rs:73-79 | the stored form of a submission is strictly sorted by prefix and has exactly the submitted prefixes |
| PrefixOrder.CanonicalFind | contracts/resolver/src/tests/set_record.rs:74-79 | in the stored form each prefix maps to the address last submitted for it |
| PrefixOrder.CanonicalPermutation | contracts/resolver/src/tests/set_record.rs:74-79 | with distinct prefixes the stored form is a permutation of the submission, of the same length |
| PrefixOrder.SortedUnique | contracts/resolver/src/tests/set_record.rs:73-79 | two strictly prefix-sorted records with the same pairs are identical |
| Resolver.IsAdmin | contracts/resolver/src/tests/set_record.rs:59-71 | a caller is an admin iff the name-nft configuration is saved and lists the caller among its admins |
| Resolver.OwnerOf | contracts/resolver/src/tests/set_record.rs:45-57 | the name-nft owner query: None iff no token has that id, otherwise the token's holder |
| Resolver.IsOwner | contracts/resolver/src/tests/set_record.rs:45-57 | a caller is the owner iff a token with the user name as id exists and the caller holds it |
| Resolver.FirstInvalidPair | contracts/resolver/src/tests/set_record.rs:169-195 | finds nothing iff every pair passes the address check, and otherwise returns the first failing pair in submission order |
| Resolver.SetRecord | contracts/resolver/src/tests/set_record.rs:59-71 | succeeds iff the name has no record, the caller is a name-nft admin or the token owner, and every pair passes the address check. On failure nothing changes: AlreadyRegistered for a taken name, Unauthorized for a stranger, and for a free name and an authorised caller with a failing pair, InvalidAddress naming the first failing pair. On success only the new name is added |
| Resolver.GetAddresses | contracts/resolver/src/tests/set_record.rs:73-79 | returns the empty list for a name without a record, and in a well-formed store a strictly prefix-ascending list |
| Resolver.SetRecordPreservesInvariant | contracts/resolver/src/tests/set_record.rs:73-79 | every write keeps all stored records strictly sorted by prefix |
| Resolver.ReadAfterSet | contracts/resolver/src/tests/set_record.rs:73-79 | after a successful write the read is strictly sorted, has exactly the submitted prefixes, and binds each prefix to the address last submitted for it |
| Resolver.ReadAfterSetIsPermutation | contracts/resolver/src/tests/set_record.rs:74-79 | after a successful write of distinct prefixes the read holds exactly the submitted pairs: same count, same multiset |
| Resolver.SetRecordWriteOnce | contracts/resolver/src/tests/set_record.rs:124-138 | a second write for a name that already has a record fails with AlreadyRegistered and the record read back is unchanged |
| Resolver.SubmissionOrderIrrelevant | contracts/resolver/src/tests/set_record.rs:60-79 | two names given the same distinct pairs in different orders read back identically |
| Resolver.AdminMaySetForOthers | contracts/resolver/src/tests/set_record.rs:46-71 | a name-nft admin who does not own the name's token may set its record |
| Resolver.MismatchedPrefixRejectsWrite | contracts/resolver/src/tests/set_record.rs:183-195 | a single pair whose address's human-readable part differs from its claimed prefix makes the whole write fail without effect |
| Resolver.RejectedWriteLeavesNoTrace | contracts/resolver/src/tests/set_record.rs:169-210 | after a rejected write, any next write behaves exactly as it would have without it |
| ResolverScenarios.SetGetSingleRecord | contracts/resolver/src/tests/set_record.rs:20-80 | admin1 sets [juno, cosmos] for bob and the read returns cosmos then juno, each with its own address |
| ResolverScenarios.SetDuplicateUsername | contracts/resolver/src/tests/set_record.rs:82-139 | repeating bob's write fails with AlreadyRegistered |
| ResolverScenarios.Bech32Verification | contracts/resolver/src/tests/set_record.rs:141-212 | a bad checksum and then a juno address claimed as cosmos are rejected, each naming the bad pair, and the valid write that follows succeeds |

## Left out

- Entry-point dispatch (`execute` and `query` matching on messages), binary serialisation and the storage internals (`Item`, `Map`, buckets) are not modelled; storage is a plain datatype value.
- `addr_validate` is a call into the host, so it is the parameter `valid`; on success it returns its input unchanged, as the host does. A rejection is modelled as `InvalidAddr` carrying the rejected input; the host's own error is a generic `StdError` whose message need not contain it, so "the first invalid admin/registrar is reported" rests on this added payload.
- The bech32 checksum (BIP-173 polymod), character-set rules, length limits and the rejection of mixed-case addresses are the parameter `checksumOk`; the split at the last `1`, the lower-casing of the human-readable part and the prefix comparison are concrete.
- The resolver's contract code is not modelled; its behaviour comes from its tests as described above. The order of its checks, the payload of its errors and its handling of repeated prefixes and empty submissions are modelling choices.
- Resolver.ReadAfterSetIsPermutation: stated only for submissions with distinct prefixes, because a repeated prefix keeps only its last address.
- Cross-contract cw721 ownership queries and minting are not modelled; the resolver receives token ownership as a map and the admin list as the name-nft configuration.
- The checks read only the admin list and the transfer flag of the name-nft configuration, so only these two fields are modelled.
- The test module of `contract.rs` calls a `SetResolver` message that `execute` does not handle, so it is not modelled.
- The generated TypeScript message types carry no logic and are not modelled.
- The `cw_multi_test` app set-up and `instantiate_*` helpers of the resolver tests are not modelled; the scenarios start from an empty resolver and a name-nft contract in which bob's token has been minted to bob.
