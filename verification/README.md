# nftfi `Immutables`: a Dafny model

This project models the `Immutables` component of the nftfi JavaScript client
(`src/nftfi/immutables.js`). The component is bound to the immutable-bundle
contract and offers two operations:

- **unseal**: sends `withdraw(id, caller)` to the contract. It then scans the
  emitted events for the first `Transfer` whose `from` is the configured
  immutable contract and whose `to` is the caller, comparing both addresses
  without regard to case. It reports that event's `tokenId`, in decimal, as
  the released bundle, tagged with the bundler contract's name. If the call
  rejects, or no event matches, the outcome goes to the error handler.
- **getBundle**: reads `bundleOfImmutable(id)` and reports the returned id in
  the same shape, or hands a rejection to the error handler.

The model is written in the functional style, because the component is. Its
private fields are set once in the constructor, and both operations build
their result from their inputs. The contract transport is a function
parameter from a `Call` request (target handle, function name, arguments) to
its outcome. The account provider's address is a parameter `caller`. The
result and error handlers are represented by where the `Response` is routed:
`ResultHandled(payload)` or `ErrorHandled(failure)`.

Files:

- `wrappers.dfy`: `Option` and `Result`.
- `decimal.dfy`: the decimal text of a non-negative integer (what `toString()`
  prints for a token id), its inverse, and both round trips.
- `immutables.dfy`: configuration, contract handle, events, case-insensitive
  address identity, the filter and first-match selection, `Unseal`,
  `GetBundle`, and the lemmas about them.

Two behaviours of the code are kept as written:

- When `withdraw` succeeds but no event matches, `filter(...)[0]` is
  `undefined` and reading its `args` throws a `TypeError`, which `.catch`
  hands to the error handler. The model names this failure
  `NoMatchingTransfer`.
- A `Transfer` event whose `from` is absent, or whose `from` matches but
  whose `to` is absent, makes `toLowerCase()` throw inside `filter`. This
  happens even when the event comes after the match, because `filter` tests
  every event. The model keeps this as the failure `MissingLogAddress`
  (`ThrowsOn`, `Readable`).

## Model

| member | source | states |
|---|---|---|
| `Decimal.FromNat` | src/nftfi/immutables.js:55 | the text of a token id is a non-empty string of digits with no redundant leading zero, one digit exactly when the id is below 10 |
| `Decimal.ToNatFromNat` | src/nftfi/immutables.js:55 | reading back the decimal text of an id gives that id |
| `Decimal.FromNatToNat` | src/nftfi/immutables.js:86 | every canonical digit string is the text of the number it denotes |
| `Decimal.FromNatInjective` | src/nftfi/immutables.js:86 | two ids with the same text are the same id |
| `Decimal.CanonicalIsTextOf` | src/nftfi/immutables.js:86 | a canonical string denoting `n` is exactly the text `toString()` gives for `n` |
| `NftfiImmutables.Lower` | src/nftfi/immutables.js:50-51 | `toLowerCase` keeps the length and lower-cases each character in place |
| `NftfiImmutables.LowerSameAddress` | src/nftfi/immutables.js:50-51 | the lower-case spelling of an address denotes the same account as the address itself |
| `NftfiImmutables.RecasedCharSameAddress` | src/nftfi/immutables.js:50-51 | changing the case of any one character of an address leaves the account it denotes unchanged |
| `NftfiImmutables.DifferentLetterDifferentAddress` | src/nftfi/immutables.js:50-51 | addresses differing in a character other than by case denote different accounts |
| `NftfiImmutables.Create` | src/nftfi/immutables.js:13-22 | the constructor keeps the configuration and binds the contract handle to `config.immutable.v1.address` and `abi` |
| `NftfiImmutables.TestLog` | src/nftfi/immutables.js:47-52 | the filter's test throws exactly on a Transfer whose next-read address is absent, and otherwise accepts exactly the Transfers from the configured contract to the caller, ignoring case |
| `NftfiImmutables.FirstTransfer` | src/nftfi/immutables.js:47-53 | the index found holds a matching Transfer and no earlier event matches; none is found only when no event matches |
| `NftfiImmutables.FilterLogs` | src/nftfi/immutables.js:47-53 | the filter fails exactly when some event makes the test throw; otherwise it keeps only matching events taken from the sequence, is empty exactly when nothing matches, and starts with the earliest match |
| `NftfiImmutables.SelectTransfer` | src/nftfi/immutables.js:47-55 | `filter(...)[0].args` yields the earliest matching event exactly when no event throws and one matches; otherwise it fails, with the address error or with the no-match error |
| `NftfiImmutables.Unseal` | src/nftfi/immutables.js:40-62 | the response depends on `withdraw` sent to the bound contract with `[id, caller]`. A rejection goes to the error handler with its reason. A payload exists exactly when the call succeeds, no event throws and a matching Transfer exists. Otherwise a successful call goes to the error handler with the address failure when an event throws, and with the no-match failure when none does. The payload's id is the decimal text of the first match's `tokenId` and its name is the bundler's |
| `NftfiImmutables.GetBundle` | src/nftfi/immutables.js:79-92 | the response depends on `bundleOfImmutable` sent to the bound contract with `[id]`. It is an error exactly when the call rejects, carrying the reason. Otherwise the payload's id is the decimal text of the returned value and its name is the bundler's |
| `NftfiImmutables.FirstMatchWins` | src/nftfi/immutables.js:47-53 | a matching Transfer preceded only by non-matching events is the one selected, whatever follows it, including later matches |
| `NftfiImmutables.UnrelatedEventSkipped` | src/nftfi/immutables.js:47-53 | inserting a non-matching event anywhere leaves whether a match exists, and which event it is, unchanged |
| `NftfiImmutables.ReadableUnrelated` | src/nftfi/immutables.js:47-52 | inserting or removing an event the test does not throw on leaves readability unchanged |
| `NftfiImmutables.UnrelatedEventIgnored` | src/nftfi/immutables.js:47-55 | inserting a non-matching, readable event anywhere leaves the selection outcome unchanged |
| `NftfiImmutables.SelectionIgnoresCase` | src/nftfi/immutables.js:48-52 | re-casing the events' addresses, the configured address or the caller changes neither which index is selected nor whether the filter throws |
| `NftfiImmutables.UnsealIgnoresAddressCase` | src/nftfi/immutables.js:40-62 | for the same withdraw outcome, the unseal response is the same under any spelling of the configured address and of the caller |
| `NftfiImmutables.UnsealAsksOnlyWithdraw` | src/nftfi/immutables.js:41-45 | the unseal response is fixed by the answer to the single request `withdraw(id, caller)` to the bound contract |
| `NftfiImmutables.GetBundleAsksOnlyBundleOfImmutable` | src/nftfi/immutables.js:80-84 | the getBundle response is fixed by the answer to the single request `bundleOfImmutable(id)` to the bound contract |
| `NftfiImmutables.UnsealScenario` | src/nftfi/immutables.js:40-62 | configured 0xAAA1, caller 0xBBB2, events [Transfer 0xaaa1 to 0xbbb2 with token 777, Approval]: the payload is bundle "777" with the bundler's name |
| `NftfiImmutables.UnsealNoMatchScenario` | src/nftfi/immutables.js:47-61 | a Transfer from the configured contract to another account is not selected, and the unseal is routed to the error handler |
| `NftfiImmutables.GetBundleScenario` | src/nftfi/immutables.js:79-92 | a read returning 999 for immutable "42" gives the payload bundle "999" with the bundler's name |

## Left out

- The contract transport (`contractFactory.create`, `handle.call`), the account provider, and the `result` and `error` handlers are foreign code. The transport is a function parameter. The caller's address is a parameter. The handlers are represented only by where the response is routed.
- `getAddress()` is called once for the `withdraw` arguments, and again inside the filter for every `Transfer` event whose `from` matches the configured address and whose `to` is present (zero or many times). The model assumes every call returns the same address.
- Promise plumbing (`.then`, `.catch`, `async`/`await`) is modelled as a plain function from the call outcome to the response. Two consequences are not modelled. A missing `options.immutable` makes unseal throw synchronously, outside `.catch`, while getBundle catches it. A rejection from `result.handle` is caught in unseal but not in getBundle.
- Lower-casing covers ASCII letters only. JavaScript's `toLowerCase` also folds non-ASCII letters, which never occur in hexadecimal addresses.
- `tokenId` and the `bundleOfImmutable` result are ethers BigNumbers. They are modelled as non-negative integers, and `toString()` as their decimal text. A missing `tokenId` on the selected event is not modelled.
- An absent `config`, `config.immutable.v1` or `config.bundler.v1` would make the constructor or the payload construction throw. The configuration is assumed well-formed.
- The repository's example script `examples/get-offers-on-collateral.js` is network and console I/O around floating-point APR formatting, so it is not part of this model.
- Calling unseal again on an already unsealed id is a contract-side rejection. It reaches the model as a rejected `withdraw` outcome, which `Unseal` routes to the error handler.
- The transport is assumed to return a `logs` array for `withdraw`. A result without `logs` would make `result.logs.filter` throw, and `.catch` would route it to the error handler; the model cannot express that result.
