/** The `Immutables` component of the nftfi client: unsealing an immutable
    bundle token (the `withdraw` write call, then picking the bundle's id out
    of the emitted Transfer event) and looking up the bundle behind an
    immutable (the `bundleOfImmutable` read call).

    The contract transport is a function parameter from the call request to
    its outcome; the result and error mappers are represented by which of the
    two a response is routed to. */
module NftfiImmutables {
  import opened Wrappers
  import Decimal

  /** A hexadecimal account or contract address, in whatever case it was written. */
  type Address = string

  // ----- Case-insensitive address identity -----

  /** `toLowerCase` on one character (ASCII letters only). */
  function LowerChar(c: char): char {
    if 'A' <= c <= 'Z' then (c as int - 'A' as int + 'a' as int) as char else c
  }

  /** `toLowerCase` on a string. */
  function Lower(s: string): (r: string)
    ensures |r| == |s|
    ensures forall i :: 0 <= i < |s| ==> r[i] == LowerChar(s[i])
  {
    if s == [] then [] else [LowerChar(s[0])] + Lower(s[1..])
  }

  /** Two addresses denote the same account when their lower-case forms agree. */
  predicate SameAddress(a: Address, b: Address) {
    Lower(a) == Lower(b)
  }

  /** The lower-case spelling of an address denotes the same account. */
  lemma LowerSameAddress(a: Address)
    ensures SameAddress(Lower(a), a)
  {
    assert forall i :: 0 <= i < |a| ==> LowerChar(LowerChar(a[i])) == LowerChar(a[i]);
  }

  /** Replacing one character of an address by another spelling of the same
      letter (upper for lower or back) leaves the account it denotes unchanged. */
  lemma RecasedCharSameAddress(a: Address, i: nat, c: char)
    requires i < |a| && LowerChar(c) == LowerChar(a[i])
    ensures SameAddress(a[i := c], a)
  {
    var b := a[i := c];
    assert forall k :: 0 <= k < |a| ==> Lower(b)[k] == Lower(a)[k];
  }

  /** Addresses of equal length that differ in a letter other than by case
      denote different accounts. */
  lemma DifferentLetterDifferentAddress(a: Address, b: Address, i: nat)
    requires |a| == |b| && i < |a| && LowerChar(a[i]) != LowerChar(b[i])
    ensures !SameAddress(a, b)
  {
    assert Lower(a)[i] != Lower(b)[i];
  }

  // ----- Configuration and the bound contract -----

  /** `config.immutable.v1`: where the immutable contract lives and its interface. */
  datatype ContractConfig = ContractConfig(address: Address, abi: string)

  /** `config.bundler.v1`: the bundle contract, known here only by name. */
  datatype BundlerConfig = BundlerConfig(name: string)

  datatype Config = Config(immutable: ContractConfig, bundler: BundlerConfig)

  /** A contract handle, as `contractFactory.create({ address, abi })` makes it. */
  datatype ContractHandle = ContractHandle(address: Address, abi: string)

  /** One `handle.call({ function, args })` request. */
  datatype Call = Call(target: ContractHandle, functionName: string, args: seq<string>)

  /** The component: its configuration and the contract handle bound once at
      construction. Neither operation below returns a new component, so
      neither can rebind them. */
  datatype Immutables = Immutables(config: Config, contract: ContractHandle)

  /** The constructor: binds the immutable contract from the configuration. */
  function Create(config: Config): (self: Immutables)
    ensures self.config == config
    ensures self.contract.address == config.immutable.address
    ensures self.contract.abi == config.immutable.abi
  {
    Immutables(config, ContractHandle(config.immutable.address, config.immutable.abi))
  }

  // ----- Emitted events -----

  /** An emitted event: its name and the `from`, `to` and `tokenId` fields of
      its `args`. An event of another kind may lack `from` or `to`. */
  datatype Log = Log(name: string, from: Option<Address>, to: Option<Address>, tokenId: nat)

  /** Why an operation was routed to the error handler. */
  datatype Failure =
    | CallRejected(reason: string)  // the contract call itself rejected
    | MissingLogAddress             // `toLowerCase` read on an absent `from` or `to`
    | NoMatchingTransfer            // `args` read on the `undefined` first element of an empty filter

  /** The event the unseal looks for: a Transfer from the immutable contract
      to the caller, both addresses compared ignoring case. */
  predicate IsReleaseTransfer(log: Log, contract: Address, caller: Address) {
    && log.name == "Transfer"
    && log.from.Some? && SameAddress(log.from.value, contract)
    && log.to.Some? && SameAddress(log.to.value, caller)
  }

  /** The filter's test throws on this event: it is named Transfer and the
      address the test reaches next is absent. */
  predicate ThrowsOn(log: Log, contract: Address) {
    && log.name == "Transfer"
    && (log.from.None? || (SameAddress(log.from.value, contract) && log.to.None?))
  }

  /** No event of the sequence makes the filter's test throw. */
  predicate Readable(logs: seq<Log>, contract: Address) {
    forall i :: 0 <= i < |logs| ==> !ThrowsOn(logs[i], contract)
  }

  /** A non-empty sequence is readable when its head and its tail are. */
  lemma ReadableCons(logs: seq<Log>, contract: Address)
    requires logs != []
    ensures Readable(logs, contract) <==> !ThrowsOn(logs[0], contract) && Readable(logs[1..], contract)
  {
    if !ThrowsOn(logs[0], contract) && Readable(logs[1..], contract) {
      forall i | 0 <= i < |logs| ensures !ThrowsOn(logs[i], contract) {
        if i > 0 { assert logs[i] == logs[1..][i - 1]; }
      }
    }
  }

  /** The filter's callback, evaluated as JavaScript does: `&&` stops at the
      first false operand, and `toLowerCase` of an absent address throws. */
  function TestLog(log: Log, contract: Address, caller: Address): (r: Result<bool, Failure>)
    ensures r.Failure? <==> ThrowsOn(log, contract)
    ensures r.Failure? ==> r.error == MissingLogAddress
    ensures r.Success? ==> (r.value <==> IsReleaseTransfer(log, contract, caller))
  {
    if log.name != "Transfer" then Success(false)
    else match log.from
      case None => Failure(MissingLogAddress)
      case Some(from) =>
        if Lower(from) != Lower(contract) then Success(false)
        else match log.to
          case None => Failure(MissingLogAddress)
          case Some(to) => Success(Lower(to) == Lower(caller))
  }

  /** The index of the earliest release transfer in `logs`, if any. */
  function FirstTransfer(logs: seq<Log>, contract: Address, caller: Address): (r: Option<nat>)
    ensures r.Some? ==> r.value < |logs| && IsReleaseTransfer(logs[r.value], contract, caller)
    ensures r.Some? ==> forall j :: 0 <= j < r.value ==> !IsReleaseTransfer(logs[j], contract, caller)
    ensures r.None? ==> forall j :: 0 <= j < |logs| ==> !IsReleaseTransfer(logs[j], contract, caller)
  {
    if logs == [] then None
    else if IsReleaseTransfer(logs[0], contract, caller) then Some(0)
    else match FirstTransfer(logs[1..], contract, caller)
      case None => None
      case Some(k) => Some(k + 1)
  }

  /** `logs.filter(test)`: the test runs on every event, left to right, and the
      first throw ends the whole filter. */
  function FilterLogs(logs: seq<Log>, contract: Address, caller: Address): (r: Result<seq<Log>, Failure>)
    ensures r.Failure? <==> !Readable(logs, contract)
    ensures r.Failure? ==> r.error == MissingLogAddress
    ensures r.Success? ==> |r.value| <= |logs|
    ensures r.Success? ==> forall j :: 0 <= j < |r.value| ==>
      r.value[j] in logs && IsReleaseTransfer(r.value[j], contract, caller)
    ensures r.Success? ==> (r.value == [] <==> FirstTransfer(logs, contract, caller).None?)
    ensures r.Success? && r.value != [] ==> r.value[0] == logs[FirstTransfer(logs, contract, caller).value]
  {
    if logs == [] then Success([])
    else match TestLog(logs[0], contract, caller)
      case Failure(e) => Failure(e)
      case Success(keep) =>
        match FilterLogs(logs[1..], contract, caller)
        case Failure(e) => Failure(e)
        case Success(rest) =>
          assert forall j :: 0 <= j < |rest| ==> rest[j] in logs by {
            forall j | 0 <= j < |rest| ensures rest[j] in logs {
              assert rest[j] in logs[1..];
            }
          }
          ReadableCons(logs, contract);
          Success(if keep then [logs[0]] + rest else rest)
  }

  /** `logs.filter(test)[0]` followed by the read of its `args`: the event the
      unseal takes its bundle id from. */
  function SelectTransfer(logs: seq<Log>, contract: Address, caller: Address): (r: Result<Log, Failure>)
    ensures r.Success? <==> Readable(logs, contract) && FirstTransfer(logs, contract, caller).Some?
    ensures r.Success? ==> r.value == logs[FirstTransfer(logs, contract, caller).value]
    ensures r.Failure? && !Readable(logs, contract) ==> r.error == MissingLogAddress
    ensures r.Failure? && Readable(logs, contract) ==> r.error == NoMatchingTransfer
  {
    match FilterLogs(logs, contract, caller)
    case Failure(e) => Failure(e)
    case Success(matched) =>
      if matched == [] then Failure(NoMatchingTransfer) else Success(matched[0])
  }

  // ----- The two operations -----

  /** What the bundle was released as: `{ bundle: { id }, nftfi: { contract: { name } } }`. */
  datatype BundlePayload = BundlePayload(bundleId: string, contractName: string)

  /** Where an operation hands its outcome: the payload to `result.handle`,
      or the failure to `error.handle`. */
  datatype Response = ResultHandled(payload: BundlePayload) | ErrorHandled(failure: Failure)

  /** `unseal({ immutable: { id } })` for the account `caller`: send `withdraw`
      with `[id, caller]` to the bound contract, then take the bundle id from
      the first matching Transfer event. */
  function Unseal(self: Immutables, caller: Address, send: Call -> Result<seq<Log>, string>, id: string): (r: Response)
    ensures var outcome := send(Call(self.contract, "withdraw", [id, caller]));
      outcome.Failure? ==> r == ErrorHandled(CallRejected(outcome.error))
    ensures var outcome := send(Call(self.contract, "withdraw", [id, caller]));
      r.ResultHandled? <==>
        && outcome.Success?
        && Readable(outcome.value, self.config.immutable.address)
        && FirstTransfer(outcome.value, self.config.immutable.address, caller).Some?
    ensures var outcome := send(Call(self.contract, "withdraw", [id, caller]));
      r.ResultHandled? ==>
        && outcome.Success?
        && var i := FirstTransfer(outcome.value, self.config.immutable.address, caller).value;
        && Decimal.IsCanonical(r.payload.bundleId)
        && Decimal.ToNat(r.payload.bundleId) == outcome.value[i].tokenId
        && r.payload.contractName == self.config.bundler.name
    ensures var outcome := send(Call(self.contract, "withdraw", [id, caller]));
      outcome.Success? && !r.ResultHandled? ==>
        r == ErrorHandled(if Readable(outcome.value, self.config.immutable.address)
                          then NoMatchingTransfer else MissingLogAddress)
  {
    match send(Call(self.contract, "withdraw", [id, caller]))
    case Failure(reason) => ErrorHandled(CallRejected(reason))
    case Success(logs) =>
      match SelectTransfer(logs, self.config.immutable.address, caller)
      case Failure(e) => ErrorHandled(e)
      case Success(transfer) =>
        Decimal.ToNatFromNat(transfer.tokenId);
        ResultHandled(BundlePayload(Decimal.FromNat(transfer.tokenId), self.config.bundler.name))
  }

  /** `getBundle({ immutable: { id } })`: read `bundleOfImmutable(id)` from the
      bound contract and report the returned id as the bundle. */
  function GetBundle(self: Immutables, query: Call -> Result<nat, string>, id: string): (r: Response)
    ensures var outcome := query(Call(self.contract, "bundleOfImmutable", [id]));
      && (outcome.Failure? <==> r.ErrorHandled?)
      && (outcome.Failure? ==> r.failure == CallRejected(outcome.error))
      && (outcome.Success? ==>
            && Decimal.IsCanonical(r.payload.bundleId)
            && Decimal.ToNat(r.payload.bundleId) == outcome.value
            && r.payload.contractName == self.config.bundler.name)
  {
    match query(Call(self.contract, "bundleOfImmutable", [id]))
    case Failure(reason) => ErrorHandled(CallRejected(reason))
    case Success(bundleId) =>
      Decimal.ToNatFromNat(bundleId);
      ResultHandled(BundlePayload(Decimal.FromNat(bundleId), self.config.bundler.name))
  }

  // ----- Properties of the selection -----

  /** A release transfer preceded only by unrelated events is the one selected,
      whatever follows it, provided no event makes the filter throw. */
  lemma FirstMatchWins(pre: seq<Log>, m: Log, post: seq<Log>, contract: Address, caller: Address)
    requires forall j :: 0 <= j < |pre| ==> !IsReleaseTransfer(pre[j], contract, caller)
    requires IsReleaseTransfer(m, contract, caller)
    requires Readable(pre + [m] + post, contract)
    ensures SelectTransfer(pre + [m] + post, contract, caller) == Success(m)
  {
    var logs := pre + [m] + post;
    var r := FirstTransfer(logs, contract, caller);
    assert logs[|pre|] == m;
    assert forall j :: 0 <= j < |pre| ==> logs[j] == pre[j];
  }

  /** Inserting an event that is not a release transfer anywhere in the
      sequence does not change which event is found first. */
  lemma {:induction false} UnrelatedEventSkipped(pre: seq<Log>, x: Log, post: seq<Log>, contract: Address, caller: Address)
    requires !IsReleaseTransfer(x, contract, caller)
    ensures FirstTransfer(pre + [x] + post, contract, caller).Some?
        <==> FirstTransfer(pre + post, contract, caller).Some?
    ensures FirstTransfer(pre + post, contract, caller).Some? ==>
      (pre + [x] + post)[FirstTransfer(pre + [x] + post, contract, caller).value]
        == (pre + post)[FirstTransfer(pre + post, contract, caller).value]
  {
    var with, without := pre + [x] + post, pre + post;
    if pre == [] {
      assert with[1..] == without;
    } else if !IsReleaseTransfer(pre[0], contract, caller) {
      UnrelatedEventSkipped(pre[1..], x, post, contract, caller);
      assert with[0] == without[0] == pre[0];
      assert with[1..] == pre[1..] + [x] + post;
      assert without[1..] == pre[1..] + post;
    } else {
      assert with[0] == without[0] == pre[0];
    }
  }

  /** Inserting an event the filter's test does not throw on keeps the
      sequence readable, and removing one keeps it readable too. */
  lemma ReadableUnrelated(pre: seq<Log>, x: Log, post: seq<Log>, contract: Address)
    requires !ThrowsOn(x, contract)
    ensures Readable(pre + [x] + post, contract) <==> Readable(pre + post, contract)
  {
    var with, without := pre + [x] + post, pre + post;
    if Readable(without, contract) {
      forall i | 0 <= i < |with| ensures !ThrowsOn(with[i], contract) {
        if i < |pre| { assert with[i] == without[i]; }
        else if i > |pre| { assert with[i] == without[i - 1]; }
      }
    }
    if Readable(with, contract) {
      forall i | 0 <= i < |without| ensures !ThrowsOn(without[i], contract) {
        if i < |pre| { assert without[i] == with[i]; }
        else { assert without[i] == with[i + 1]; }
      }
    }
  }

  /** Inserting an unrelated, readable event anywhere in the sequence changes
      neither the event the unseal selects nor why it fails. */
  lemma UnrelatedEventIgnored(pre: seq<Log>, x: Log, post: seq<Log>, contract: Address, caller: Address)
    requires !IsReleaseTransfer(x, contract, caller) && !ThrowsOn(x, contract)
    ensures SelectTransfer(pre + [x] + post, contract, caller) == SelectTransfer(pre + post, contract, caller)
  {
    UnrelatedEventSkipped(pre, x, post, contract, caller);
    ReadableUnrelated(pre, x, post, contract);
  }

  /** Two events that agree up to the case of their addresses. */
  predicate SameUpToCase(a: Log, b: Log) {
    && a.name == b.name
    && a.tokenId == b.tokenId
    && a.from.Some? == b.from.Some? && (a.from.Some? ==> SameAddress(a.from.value, b.from.value))
    && a.to.Some? == b.to.Some? && (a.to.Some? ==> SameAddress(a.to.value, b.to.value))
  }

  /** Changing the case of any letter in the events' addresses, the configured
      contract address or the caller's address changes neither which event is
      selected nor whether the filter throws. */
  lemma {:induction false} SelectionIgnoresCase(logs: seq<Log>, logs': seq<Log>, contract: Address, contract': Address, caller: Address, caller': Address)
    requires |logs| == |logs'|
    requires forall i :: 0 <= i < |logs| ==> SameUpToCase(logs[i], logs'[i])
    requires SameAddress(contract, contract') && SameAddress(caller, caller')
    ensures FirstTransfer(logs, contract, caller) == FirstTransfer(logs', contract', caller')
    ensures Readable(logs, contract) <==> Readable(logs', contract')
  {
    if logs != [] {
      SelectionIgnoresCase(logs[1..], logs'[1..], contract, contract', caller, caller');
      assert SameUpToCase(logs[0], logs'[0]);
      assert IsReleaseTransfer(logs[0], contract, caller) <==> IsReleaseTransfer(logs'[0], contract', caller');
      assert ThrowsOn(logs[0], contract) <==> ThrowsOn(logs'[0], contract');
      ReadableCons(logs, contract);
      ReadableCons(logs', contract');
    }
  }

  /** The unseal outcome, for a given withdraw outcome, is the same for every
      spelling of the configured address and of the caller's address. */
  lemma UnsealIgnoresAddressCase(self: Immutables, self': Immutables, caller: Address, caller': Address,
                                 send: Call -> Result<seq<Log>, string>, send': Call -> Result<seq<Log>, string>, id: string)
    requires self'.config.bundler == self.config.bundler
    requires SameAddress(self.config.immutable.address, self'.config.immutable.address)
    requires SameAddress(caller, caller')
    requires send(Call(self.contract, "withdraw", [id, caller])) == send'(Call(self'.contract, "withdraw", [id, caller']))
    ensures Unseal(self, caller, send, id) == Unseal(self', caller', send', id)
  {
    var outcome := send(Call(self.contract, "withdraw", [id, caller]));
    if outcome.Success? {
      var logs := outcome.value;
      assert forall i :: 0 <= i < |logs| ==> SameUpToCase(logs[i], logs[i]);
      SelectionIgnoresCase(logs, logs, self.config.immutable.address, self'.config.immutable.address, caller, caller');
    }
  }

  /** The request `unseal` sends is the only thing it learns from the contract:
      two transports that answer that one request alike give the same response. */
  lemma UnsealAsksOnlyWithdraw(self: Immutables, caller: Address, send: Call -> Result<seq<Log>, string>,
                               send': Call -> Result<seq<Log>, string>, id: string)
    requires send(Call(self.contract, "withdraw", [id, caller])) == send'(Call(self.contract, "withdraw", [id, caller]))
    ensures Unseal(self, caller, send, id) == Unseal(self, caller, send', id)
  {
  }

  /** Likewise `getBundle` asks only `bundleOfImmutable(id)`. */
  lemma GetBundleAsksOnlyBundleOfImmutable(self: Immutables, query: Call -> Result<nat, string>,
                                           query': Call -> Result<nat, string>, id: string)
    requires query(Call(self.contract, "bundleOfImmutable", [id])) == query'(Call(self.contract, "bundleOfImmutable", [id]))
    ensures GetBundle(self, query, id) == GetBundle(self, query', id)
  {
  }

  // ----- Worked scenarios -----

  /** The spellings of the unseal scenario below denote the same accounts. */
  lemma ScenarioAddresses()
    ensures SameAddress("0xaaa1", "0xAAA1") && SameAddress("0xbbb2", "0xBBB2")
  {
    assert Lower("0xAAA1") == "0xaaa1" == Lower("0xaaa1");
    assert Lower("0xBBB2") == "0xbbb2" == Lower("0xbbb2");
  }

  /** The events of the unseal scenario below: the Transfer is readable and selected. */
  lemma ScenarioSelection(logs: seq<Log>)
    requires logs == [Log("Transfer", Some("0xaaa1"), Some("0xbbb2"), 777),
                      Log("Approval", Some("0xbbb2"), Some("0xcccc"), 5)]
    ensures Readable(logs, "0xAAA1") && FirstTransfer(logs, "0xAAA1", "0xBBB2") == Some(0)
  {
    ScenarioAddresses();
    assert IsReleaseTransfer(logs[0], "0xAAA1", "0xBBB2");
  }

  /** The only canonical text of 777. */
  lemma ScenarioBundleText(s: string)
    requires Decimal.IsCanonical(s) && Decimal.ToNat(s) == 777
    ensures s == "777"
  {
    Decimal.CanonicalIsTextOf(s, 777);
  }

  /** Configured contract 0xAAA1, caller 0xBBB2: the lower-case Transfer event
      ahead of an Approval yields bundle "777". */
  lemma UnsealScenario(self: Immutables, send: Call -> Result<seq<Log>, string>, logs: seq<Log>)
    requires self.config.immutable.address == "0xAAA1"
    requires logs == [Log("Transfer", Some("0xaaa1"), Some("0xbbb2"), 777),
                      Log("Approval", Some("0xbbb2"), Some("0xcccc"), 5)]
    requires send(Call(self.contract, "withdraw", ["42", "0xBBB2"])) == Success(logs)
    ensures Unseal(self, "0xBBB2", send, "42") == ResultHandled(BundlePayload("777", self.config.bundler.name))
  {
    ScenarioSelection(logs);
    var r := Unseal(self, "0xBBB2", send, "42");
    assert r.ResultHandled? && Decimal.ToNat(r.payload.bundleId) == 777;
    ScenarioBundleText(r.payload.bundleId);
  }

  /** Reading bundle 999 for immutable "42" yields bundle "999". */
  lemma GetBundleScenario(self: Immutables, query: Call -> Result<nat, string>)
    requires query(Call(self.contract, "bundleOfImmutable", ["42"])) == Success(999)
    ensures GetBundle(self, query, "42") == ResultHandled(BundlePayload("999", self.config.bundler.name))
  {
    var r := GetBundle(self, query, "42");
    Decimal.CanonicalIsTextOf(r.payload.bundleId, 999);
  }

  /** When the withdraw succeeds but every Transfer event goes elsewhere, the
      unseal is routed to the error handler. */
  lemma UnsealNoMatchScenario(self: Immutables, send: Call -> Result<seq<Log>, string>, logs: seq<Log>)
    requires self.config.immutable.address == "0xaaa1"
    requires logs == [Log("Transfer", Some("0xaaa1"), Some("0xdddd"), 777)]
    requires send(Call(self.contract, "withdraw", ["42", "0xbbb2"])) == Success(logs)
    ensures Unseal(self, "0xbbb2", send, "42") == ErrorHandled(NoMatchingTransfer)
  {
    DifferentLetterDifferentAddress("0xdddd", "0xbbb2", 2);
    assert !IsReleaseTransfer(logs[0], "0xaaa1", "0xbbb2");
    assert Readable(logs, "0xaaa1");
  }
}
