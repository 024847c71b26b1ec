/**
 * The guard checks of the name-token (name-nft) contract: the global
 * "transferrable" gate, admin membership, and the name-format rule.
 *
 * Each check reads the saved configuration, which is passed in as the
 * storage slot itself (`None` when nothing was ever saved). The checks are
 * pure functions of that slot, so none of them can change it.
 */
module NameNftChecks {
  import opened Wrappers
  import opened Host

  /** The part of the name-nft configuration the checks read. */
  datatype Config = Config(admins: seq<Addr>, transferrable: bool)

  /**
   * The errors the checks raise. `Unauthorized` is the token library's own
   * error converted into the contract's error type.
   */
  datatype ContractError = Std(err: StdError) | Unauthorized | InvalidName

  /** The separator a token name may not contain. */
  const Separator: char := '.'

  /**
   * Transfers are allowed only while the configuration's flag is set. The
   * check has no caller argument: the gate is the same for every sender.
   */
  function CheckTransferrable(stored: Option<Config>): (r: Outcome<ContractError>)
    ensures r.Pass? <==> stored.Some? && stored.value.transferrable
    ensures stored.None? ==> r == Fail(Std(NotFound))
    ensures stored.Some? && !stored.value.transferrable ==> r == Fail(Unauthorized)
  {
    match stored
    case None => Fail(Std(NotFound))
    case Some(config) => if !config.transferrable then Fail(Unauthorized) else Pass
  }

  /**
   * The admin loop: scans `admins` front to back and stops at the first
   * entry equal to `sender`.
   */
  function AdminScan(admins: seq<Addr>, sender: Addr): (found: bool)
    ensures found <==> exists i :: 0 <= i < |admins| && admins[i] == sender
  {
    if |admins| == 0 then false
    else if admins[0] == sender then true
    else AdminScan(admins[1..], sender)
  }

  /** Passes exactly when `sender` is one of the configured admins. */
  function CheckAdmin(stored: Option<Config>, sender: Addr): (r: Outcome<ContractError>)
    ensures r.Pass? <==> stored.Some? && sender in stored.value.admins
    ensures stored.None? ==> r == Fail(Std(NotFound))
    ensures stored.Some? && sender !in stored.value.admins ==> r == Fail(Unauthorized)
  {
    match stored
    case None => Fail(Std(NotFound))
    case Some(config) => if AdminScan(config.admins, sender) then Pass else Fail(Unauthorized)
  }

  /** A name is rejected exactly when it contains the separator. */
  function ValidateName(name: string): (r: Outcome<ContractError>)
    ensures r.Pass? <==> forall i :: 0 <= i < |name| ==> name[i] != Separator
    ensures r.Fail? ==> r.error == InvalidName
  {
    if Separator in name then Fail(InvalidName) else Pass
  }

  /** With no admins configured, every sender is refused. */
  lemma NoAdminsRefusesEveryone(transferrable: bool, sender: Addr)
    ensures CheckAdmin(Some(Config([], transferrable)), sender) == Fail(Unauthorized)
  {
  }

  /**
   * The admin check depends only on which addresses are admins: reordering
   * the list or repeating entries does not change its result.
   */
  lemma CheckAdminOnlyMembership(c1: Config, c2: Config, sender: Addr)
    requires forall a :: a in c1.admins <==> a in c2.admins
    ensures CheckAdmin(Some(c1), sender) == CheckAdmin(Some(c2), sender)
  {
  }

  /** The admin check ignores the transfer flag, and the transfer gate ignores the admin list. */
  lemma ChecksIndependent(c: Config, flag: bool, admins: seq<Addr>, sender: Addr)
    ensures CheckAdmin(Some(c.(transferrable := flag)), sender) == CheckAdmin(Some(c), sender)
    ensures CheckTransferrable(Some(c.(admins := admins))) == CheckTransferrable(Some(c))
  {
  }

  /** The empty name is accepted. */
  lemma EmptyNameAccepted()
    ensures ValidateName("") == Pass
  {
  }

  /** A concatenation is accepted exactly when both parts are. */
  lemma {:induction false} ValidateNameConcat(a: string, b: string)
    ensures ValidateName(a + b).Pass? <==> ValidateName(a).Pass? && ValidateName(b).Pass?
  {
    if ValidateName(a).Pass? && ValidateName(b).Pass? {
      forall i | 0 <= i < |a + b|
        ensures (a + b)[i] != Separator
      {
        if i < |a| {
          assert (a + b)[i] == a[i];
        } else {
          assert (a + b)[i] == b[i - |a|];
        }
      }
    }
    if ValidateName(a + b).Pass? {
      forall i | 0 <= i < |a|
        ensures a[i] != Separator
      {
        assert (a + b)[i] == a[i];
      }
      forall i | 0 <= i < |b|
        ensures b[i] != Separator
      {
        assert (a + b)[|a| + i] == b[i];
      }
    }
  }

  /** A name with a dotted label in front of it (as in `sub.name`) is always rejected. */
  lemma DottedNameRejected(head: string, name: string)
    ensures ValidateName(head + [Separator] + name) == Fail(InvalidName)
  {
    assert (head + [Separator] + name)[|head|] == Separator;
  }
}
