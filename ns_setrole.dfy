/**
 * NickServ SETROLE and the "Oper rank" line of INFO (ns_setrole.c).
 *
 * SETROLE runs an ordered chain of guards (privilege, arity, account, role
 * characters); each failure answers the caller and changes nothing, and
 * success writes one metadata entry on the target account. The INFO hook
 * reads that entry back. The account registry is a class whose methods
 * update the accounts map and append the replies sent to a log.
 */
module NsSetRole {

  import opened Options
  import opened CStrings

  /** The metadata key the role is stored under. */
  const RoleKey := "private:network_role"

  /** A command source (`sourceinfo_t *`): whom a reply goes to. */
  type SourceId = nat

  /** The failure classes `command_fail` reports; an unknown account names the account given. */
  datatype Fault =
    | NoPrivs
    | NeedMoreParams
    | NoSuchTarget(account: string)
    | BadParams

  /** A registered account: its name as registered and its metadata. */
  datatype Account = Account(name: string, metadata: map<string, string>)

  /** What the guard chain decides: a fault, or the account key, the name given and the role to store. */
  datatype Verdict =
    | Rejected(fault: Fault)
    | Accepted(key: string, account: string, role: string)

  /** The lines sent to a source; `ReplyText` gives their wording. */
  datatype Reply =
    | Failure(to: SourceId, fault: Fault)
    | RoleSet(to: SourceId, role: string, account: string)
    | OperRank(to: SourceId, role: string)

  /** `hook_user_req_t`: the INFO requester and the account shown, either of which may be NULL. */
  datatype UserReq = UserReq(si: Option<SourceId>, mu: Option<string>)

  function FaultText(fault: Fault): string
  {
    match fault
    case NoPrivs => "You do not have the required privilege to set network roles."
    case NeedMoreParams => "Usage: SETROLE <account> <role>"
    case NoSuchTarget(account) => "Account " + [Bold] + CStr(account) + [Bold] + " does not exist."
    case BadParams => "Invalid role name. Role cannot contain newlines or semicolons."
  }

  function ReplyText(r: Reply): string
  {
    match r
    case Failure(_, fault) => FaultText(fault)
    case RoleSet(_, role, account) =>
      "OPer rank " + [Bold] + role + [Bold] + " has been set for account " + [Bold] + CStr(account) + [Bold] + "."
    case OperRank(_, role) => "Oper rank  : " + role
  }

  /** `myuser_find`: accounts are keyed by their case-folded name. */
  function AccountKey(name: string): string
  {
    Fold(CStr(name))
  }

  /** `strchr(s, c)` for a non-NUL `c`: the position of the first `c` before the terminator, if any. */
  function Strchr(s: string, c: char): (r: Option<nat>)
    requires c != NUL
    ensures r.None? <==> c !in CStr(s)
    ensures r.Some? ==> r.value < |CStr(s)| && CStr(s)[r.value] == c && c !in CStr(s)[..r.value]
  {
    if s == [] || s[0] == NUL then None
    else if s[0] == c then Some(0)
    else match Strchr(s[1..], c)
      case None => None
      case Some(k) => Some(k + 1)
  }

  /** The role check of SETROLE, as the source writes it. */
  predicate RoleAllowed(role: string)
  {
    Strchr(role, '\n').None? && Strchr(role, '\r').None? && Strchr(role, ';').None?
  }

  /** A stored role value that cannot break a line or a metadata record. */
  predicate CleanRole(role: string)
  {
    forall i :: 0 <= i < |role| ==> role[i] != '\n' && role[i] != '\r' && role[i] != ';'
  }

  /** The `strchr` test accepts exactly the roles whose C string is clean. */
  lemma RoleAllowedIff(role: string)
    ensures RoleAllowed(role) <==> CleanRole(CStr(role))
  {
    var r := CStr(role);
    if RoleAllowed(role) {
      forall i | 0 <= i < |r| ensures r[i] != '\n' && r[i] != '\r' && r[i] != ';' {
        assert r[i] in r;
      }
    } else if Strchr(role, '\n').Some? {
      assert r[Strchr(role, '\n').value] == '\n';
    } else if Strchr(role, '\r').Some? {
      assert r[Strchr(role, '\r').value] == '\r';
    } else {
      assert r[Strchr(role, ';').value] == ';';
    }
  }

  /** The guard chain of `ns_cmd_setrole`, in the source's order. */
  function Decide(privileged: bool, parv: seq<string>, accounts: map<string, Account>): (v: Verdict)
    ensures v.Accepted? ==> v.key in accounts && v.key == AccountKey(v.account) && CleanRole(v.role)
  {
    if !privileged then Rejected(NoPrivs)
    else if |parv| < 2 then Rejected(NeedMoreParams)
    else if AccountKey(parv[0]) !in accounts then Rejected(NoSuchTarget(parv[0]))
    else if !RoleAllowed(parv[1]) then Rejected(BadParams)
    else
      RoleAllowedIff(parv[1]);
      Accepted(AccountKey(parv[0]), parv[0], CStr(parv[1]))
  }

  /** The accounts after a verdict: untouched on rejection, the role entry written on acceptance. */
  function Store(accounts: map<string, Account>, v: Verdict): (r: map<string, Account>)
    requires v.Accepted? ==> v.key in accounts
    ensures r.Keys == accounts.Keys
    ensures forall k :: k in r ==> r[k].name == accounts[k].name
  {
    match v
    case Rejected(_) => accounts
    case Accepted(key, _, role) =>
      accounts[key := accounts[key].(metadata := accounts[key].metadata[RoleKey := role])]
  }

  /** The reply SETROLE sends its caller for a verdict. */
  function Answer(si: SourceId, v: Verdict): (r: Reply)
    ensures r.to == si
    ensures r.Failure? <==> v.Rejected?
    ensures r.Failure? ==> r.fault == v.fault
  {
    match v
    case Rejected(fault) => Failure(si, fault)
    case Accepted(_, account, role) => RoleSet(si, role, account)
  }

  /** `add_access_level_to_info`: the lines the INFO hook adds. */
  function InfoReplies(accounts: map<string, Account>, req: Option<UserReq>): seq<Reply>
    requires req.Some? && req.value.mu.Some? ==> req.value.mu.value in accounts
  {
    if req.None? || req.value.mu.None? || req.value.si.None? then []
    else
      var md := accounts[req.value.mu.value].metadata;
      if RoleKey in md then [OperRank(req.value.si.value, md[RoleKey])] else []
  }

  /** Every account is filed under the folded form of its own name. */
  predicate WellKeyed(accounts: map<string, Account>)
  {
    forall k :: k in accounts ==> AccountKey(accounts[k].name) == k
  }

  /** Every stored role is clean. */
  predicate RolesClean(accounts: map<string, Account>)
  {
    forall k :: k in accounts && RoleKey in accounts[k].metadata ==> CleanRole(accounts[k].metadata[RoleKey])
  }

  class Registry {
    var accounts: map<string, Account>
    /** Every reply sent, oldest first. */
    var replies: seq<Reply>

    ghost predicate Valid()
      reads this
    {
      WellKeyed(accounts) && RolesClean(accounts)
    }

    constructor(accounts0: map<string, Account>)
      requires WellKeyed(accounts0) && RolesClean(accounts0)
      ensures Valid()
      ensures accounts == accounts0 && replies == []
    {
      accounts := accounts0;
      replies := [];
    }

    /** `ns_cmd_setrole`: the guards in order, then the metadata write and the reply. */
    method SetRole(si: SourceId, privileged: bool, parv: seq<string>)
      requires Valid()
      modifies this
      ensures Valid()
      ensures accounts == Store(old(accounts), Decide(privileged, parv, old(accounts)))
      ensures replies == old(replies) + [Answer(si, Decide(privileged, parv, old(accounts)))]
    {
      if !privileged {
        replies := replies + [Failure(si, NoPrivs)];
        return;
      }
      if |parv| < 2 {
        replies := replies + [Failure(si, NeedMoreParams)];
        return;
      }
      var accountName := parv[0];
      var role := parv[1];
      var key := AccountKey(accountName);
      if key !in accounts {
        replies := replies + [Failure(si, NoSuchTarget(accountName))];
        return;
      }
      if Strchr(role, '\n').Some? || Strchr(role, '\r').Some? || Strchr(role, ';').Some? {
        replies := replies + [Failure(si, BadParams)];
        return;
      }
      var mu := accounts[key];
      var value := CStr(role);
      accounts := accounts[key := mu.(metadata := mu.metadata[RoleKey := value])];
      replies := replies + [RoleSet(si, value, accountName)];
      SetRoleKeepsRolesClean(privileged, parv, old(accounts));
    }

    /** The INFO hook: appends the "Oper rank" line when the role is set, and changes nothing else. */
    method UserInfo(req: Option<UserReq>)
      requires req.Some? && req.value.mu.Some? ==> req.value.mu.value in accounts
      modifies this
      ensures accounts == old(accounts)
      ensures replies == old(replies) + InfoReplies(accounts, req)
    {
      if req.None? || req.value.mu.None? || req.value.si.None? {
        return;
      }
      var md := accounts[req.value.mu.value].metadata;
      if RoleKey in md {
        replies := replies + [OperRank(req.value.si.value, md[RoleKey])];
      }
    }
  }

  /**
   * SETROLE is accepted exactly when the caller holds the privilege, both
   * arguments are given, the account exists and the role is clean; what it
   * stores is the role as a C string reads it.
   */
  lemma AcceptedIff(privileged: bool, parv: seq<string>, accounts: map<string, Account>)
    ensures var v := Decide(privileged, parv, accounts);
            v.Accepted? <==>
              privileged && |parv| >= 2 && AccountKey(parv[0]) in accounts && CleanRole(CStr(parv[1]))
    ensures var v := Decide(privileged, parv, accounts);
            v.Accepted? ==> v.key == AccountKey(parv[0]) && v.key in accounts && v.role == CStr(parv[1])
  {
    if |parv| >= 2 {
      RoleAllowedIff(parv[1]);
    }
  }

  /** Each fault is reported exactly when every earlier guard passed and its own failed. */
  lemma GuardOrder(privileged: bool, parv: seq<string>, accounts: map<string, Account>)
    ensures Decide(privileged, parv, accounts) == Rejected(NoPrivs) <==> !privileged
    ensures Decide(privileged, parv, accounts) == Rejected(NeedMoreParams) <==> privileged && |parv| < 2
    ensures Decide(privileged, parv, accounts).Rejected? && Decide(privileged, parv, accounts).fault.NoSuchTarget? <==>
              privileged && |parv| >= 2 && AccountKey(parv[0]) !in accounts
    ensures Decide(privileged, parv, accounts) == Rejected(BadParams) <==>
              privileged && |parv| >= 2 && AccountKey(parv[0]) in accounts && !CleanRole(CStr(parv[1]))
  {
    if |parv| >= 2 {
      RoleAllowedIff(parv[1]);
    }
  }

  /** A rejected SETROLE leaves every account as it was. */
  lemma RejectedChangesNothing(privileged: bool, parv: seq<string>, accounts: map<string, Account>)
    requires Decide(privileged, parv, accounts).Rejected?
    ensures Store(accounts, Decide(privileged, parv, accounts)) == accounts
  {
  }

  /**
   * An accepted SETROLE changes only the role entry of the target account:
   * the same accounts, every other account and every other key untouched.
   */
  lemma AcceptedWritesOnlyRole(privileged: bool, parv: seq<string>, accounts: map<string, Account>)
    requires Decide(privileged, parv, accounts).Accepted?
    ensures var v := Decide(privileged, parv, accounts);
            var after := Store(accounts, v);
            && after.Keys == accounts.Keys
            && (forall k :: k in accounts && k != v.key ==> after[k] == accounts[k])
            && after[v.key].name == accounts[v.key].name
            && after[v.key].metadata.Keys == accounts[v.key].metadata.Keys + {RoleKey}
            && after[v.key].metadata[RoleKey] == CStr(parv[1])
            && (forall m :: m in accounts[v.key].metadata && m != RoleKey ==>
                  after[v.key].metadata[m] == accounts[v.key].metadata[m])
  {
  }

  /** Once SETROLE has been accepted, INFO on that account shows the role just set. */
  lemma SetRoleThenInfo(privileged: bool, parv: seq<string>, accounts: map<string, Account>, viewer: SourceId)
    requires Decide(privileged, parv, accounts).Accepted?
    ensures var v := Decide(privileged, parv, accounts);
            InfoReplies(Store(accounts, v), Some(UserReq(Some(viewer), Some(v.key))))
              == [OperRank(viewer, CStr(parv[1]))]
  {
  }

  /** The INFO hook adds a line exactly when the request is complete and the role key is present. */
  lemma InfoIff(accounts: map<string, Account>, req: Option<UserReq>)
    requires req.Some? && req.value.mu.Some? ==> req.value.mu.value in accounts
    ensures |InfoReplies(accounts, req)| <= 1
    ensures InfoReplies(accounts, req) != [] <==>
              req.Some? && req.value.si.Some? && req.value.mu.Some? &&
              RoleKey in accounts[req.value.mu.value].metadata
    ensures InfoReplies(accounts, req) != [] ==>
              InfoReplies(accounts, req)[0] ==
                OperRank(req.value.si.value, accounts[req.value.mu.value].metadata[RoleKey])
  {
  }

  /** SETROLE keeps every account filed under its own folded name. */
  lemma SetRoleKeepsWellKeyed(privileged: bool, parv: seq<string>, accounts: map<string, Account>)
    requires WellKeyed(accounts)
    ensures WellKeyed(Store(accounts, Decide(privileged, parv, accounts)))
  {
  }

  /** SETROLE never stores a role holding a line break or a semicolon. */
  lemma SetRoleKeepsRolesClean(privileged: bool, parv: seq<string>, accounts: map<string, Account>)
    requires RolesClean(accounts)
    ensures RolesClean(Store(accounts, Decide(privileged, parv, accounts)))
  {
    AcceptedIff(privileged, parv, accounts);
  }
}
