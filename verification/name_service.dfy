/**
 * The name-service contract: a configuration saved once at instantiation,
 * a write-once registry from user name to owner, and a lookup of the
 * resolver bucket.
 *
 * Storage is a value of `State`; every execute entry point returns a
 * `Step` holding its outcome and the storage it leaves behind.
 */
module NameService {
  import opened Wrappers
  import opened Host

  /** Rust's `i32`, the (unused) first component of each submitted address pair. */
  newtype Int32 = x: int | -0x8000_0000 <= x < 0x8000_0000

  datatype InstantiateMsg = InstantiateMsg(admins: seq<string>, registrarAddresses: seq<string>)

  datatype Config = Config(admins: seq<Addr>, registrarAddresses: seq<Addr>)

  /** A value of the resolver bucket, keyed by the name's bytes. */
  datatype Record = Record(resolver: Addr)

  /**
   * The contract's storage: the config singleton (absent until saved), the
   * `OWNER` map and the resolver bucket.
   */
  datatype State = State(config: Option<Config>, owner: map<string, Addr>, resolver: map<string, Record>)

  datatype ContractError = Std(err: StdError) | UserAlreadyRegistered(name: string)

  /** Every entry passes the host's address validation. */
  predicate AllValid(valid: string -> bool, inputs: seq<string>)
  {
    forall i :: 0 <= i < |inputs| ==> valid(inputs[i])
  }

  /** `e` is the error for the first entry of `inputs` that fails validation. */
  predicate FirstInvalid(valid: string -> bool, inputs: seq<string>, e: StdError)
  {
    exists k :: 0 <= k < |inputs| && !valid(inputs[k]) && e == InvalidAddr(inputs[k])
                && AllValid(valid, inputs[..k])
  }

  /**
   * Validates a list of addresses in order, stopping at the first invalid
   * one. `valid` stands for the host's `addr_validate`, which on success
   * returns its input unchanged.
   */
  function ValidateAll(valid: string -> bool, inputs: seq<string>): (r: Result<seq<Addr>, StdError>)
    ensures r.Ok? <==> AllValid(valid, inputs)
    ensures r.Ok? ==> r.value == inputs
    ensures r.Err? ==> FirstInvalid(valid, inputs, r.error)
  {
    if |inputs| == 0 then Ok([])
    else if !valid(inputs[0]) then
      assert AllValid(valid, inputs[..0]);
      Err(InvalidAddr(inputs[0]))
    else
      match ValidateAll(valid, inputs[1..])
      case Err(e) =>
        assert FirstInvalid(valid, inputs, e) by {
          var k :| 0 <= k < |inputs[1..]| && !valid(inputs[1..][k]) && e == InvalidAddr(inputs[1..][k])
                   && AllValid(valid, inputs[1..][..k]);
          assert inputs[..k + 1] == [inputs[0]] + inputs[1..][..k];
        }
        Err(e)
      case Ok(rest) =>
        assert inputs == [inputs[0]] + inputs[1..];
        Ok([inputs[0]] + rest)
  }

  /**
   * Validates the admins, then the registrars, and saves the config built
   * from them. The first invalid entry aborts the call before anything is saved.
   */
  function Instantiate(valid: string -> bool, s: State, msg: InstantiateMsg): (r: Step<State, StdError>)
    ensures r.outcome.Pass? <==> AllValid(valid, msg.admins) && AllValid(valid, msg.registrarAddresses)
    ensures r.outcome.Pass? ==>
              r.state == s.(config := Some(Config(msg.admins, msg.registrarAddresses)))
    ensures r.outcome.Fail? ==> r.state == s
    ensures r.outcome.Fail? && !AllValid(valid, msg.admins) ==>
              FirstInvalid(valid, msg.admins, r.outcome.error)
    ensures r.outcome.Fail? && AllValid(valid, msg.admins) ==>
              FirstInvalid(valid, msg.registrarAddresses, r.outcome.error)
  {
    match ValidateAll(valid, msg.admins)
    case Err(e) => Step(Fail(e), s)
    case Ok(admins) =>
      match ValidateAll(valid, msg.registrarAddresses)
      case Err(e) => Step(Fail(e), s)
      case Ok(registrars) => Step(Pass, s.(config := Some(Config(admins, registrars))))
  }

  /**
   * Registers `owner` for `userName` if the name is still free. The caller
   * is not checked and the submitted addresses are not stored.
   */
  function ExecuteSetRecord(s: State, sender: Addr, userName: string, owner: Addr,
                            addresses: seq<(Int32, string)>): (r: Step<State, ContractError>)
    ensures r.outcome.Pass? <==> s.config.Some? && userName !in s.owner
    ensures s.config.None? ==> r.outcome == Fail(Std(NotFound))
    ensures s.config.Some? && userName in s.owner ==>
              r.outcome == Fail(UserAlreadyRegistered(userName))
    ensures r.outcome.Fail? ==> r.state == s
    ensures r.outcome.Pass? ==>
              && r.state.config == s.config
              && r.state.resolver == s.resolver
              && r.state.owner.Keys == s.owner.Keys + {userName}
              && r.state.owner[userName] == owner
              && forall k :: k in s.owner ==> r.state.owner[k] == s.owner[k]
  {
    match s.config
    case None => Step(Fail(Std(NotFound)), s)
    case Some(_) =>
      if userName in s.owner then Step(Fail(UserAlreadyRegistered(userName)), s)
      else Step(Pass, s.(owner := s.owner[userName := owner]))
  }

  /** The resolver recorded for `name`, if there is one. */
  function QueryResolver(s: State, name: string): (address: Option<string>)
    ensures address.Some? <==> name in s.resolver
    ensures address.Some? ==> address.value == s.resolver[name].resolver
  {
    if name in s.resolver then Some(s.resolver[name].resolver) else None
  }

  /** The saved configuration, or `NotFound` before instantiation. */
  function QueryConfig(s: State): (r: Result<Config, StdError>)
    ensures r.Ok? <==> s.config.Some?
    ensures r.Ok? ==> r.value == s.config.value
    ensures r.Err? ==> r.error == NotFound
  {
    match s.config
    case None => Err(NotFound)
    case Some(c) => Ok(c)
  }

  /** Instantiation with valid addresses is observed by the config query as the input lists, in order. */
  lemma InstantiateThenQueryConfig(valid: string -> bool, s: State, msg: InstantiateMsg)
    requires AllValid(valid, msg.admins) && AllValid(valid, msg.registrarAddresses)
    ensures Instantiate(valid, s, msg).outcome == Pass
    ensures QueryConfig(Instantiate(valid, s, msg).state) == Ok(Config(msg.admins, msg.registrarAddresses))
  {
  }

  /**
   * Write-once: after a successful registration of `userName`, any later
   * registration of the same name fails and the first owner stays.
   */
  lemma SetRecordWriteOnce(s: State, sender1: Addr, sender2: Addr, userName: string,
                           owner1: Addr, owner2: Addr,
                           addresses1: seq<(Int32, string)>, addresses2: seq<(Int32, string)>)
    requires ExecuteSetRecord(s, sender1, userName, owner1, addresses1).outcome.Pass?
    ensures var s1 := ExecuteSetRecord(s, sender1, userName, owner1, addresses1).state;
            var r2 := ExecuteSetRecord(s1, sender2, userName, owner2, addresses2);
            && r2.outcome == Fail(UserAlreadyRegistered(userName))
            && r2.state == s1
            && r2.state.owner[userName] == owner1
  {
  }

  /** The result depends neither on the caller nor on the submitted addresses. */
  lemma SetRecordIgnoresSenderAndAddresses(s: State, sender1: Addr, sender2: Addr, userName: string,
                                           owner: Addr,
                                           addresses1: seq<(Int32, string)>, addresses2: seq<(Int32, string)>)
    ensures ExecuteSetRecord(s, sender1, userName, owner, addresses1)
         == ExecuteSetRecord(s, sender2, userName, owner, addresses2)
  {
  }

  /**
   * Registering an owner writes only the `OWNER` map, never the resolver
   * bucket, so the resolver query answers exactly as before.
   */
  lemma SetRecordLeavesResolverQuery(s: State, sender: Addr, userName: string, owner: Addr,
                                     addresses: seq<(Int32, string)>, name: string)
    ensures QueryResolver(ExecuteSetRecord(s, sender, userName, owner, addresses).state, name)
         == QueryResolver(s, name)
  {
  }

  /** Right after instantiation every unregistered name can be registered, by any caller. */
  lemma InstantiateEnablesSetRecord(valid: string -> bool, s: State, msg: InstantiateMsg,
                                    sender: Addr, userName: string, owner: Addr,
                                    addresses: seq<(Int32, string)>)
    requires AllValid(valid, msg.admins) && AllValid(valid, msg.registrarAddresses)
    requires userName !in s.owner
    ensures var s1 := Instantiate(valid, s, msg).state;
            ExecuteSetRecord(s1, sender, userName, owner, addresses).outcome == Pass
  {
  }
}
