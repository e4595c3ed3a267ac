/**
 * NickServ login/logout identity enforcement (ns_login.c).
 *
 * The host's session registry is a class: the live sessions and their
 * nicknames, the account each logged-in session belongs to, every account's
 * list of logged-in sessions, and the registered nick records. What the
 * module sends to the network (notices, forced nick changes, quits) is
 * appended to an event log; a forced nick change is a request to the IRC
 * server and does not itself change the registry.
 */
module NsLogin {

  import opened Options
  import opened CStrings

  /** A session handle (`struct user *`). */
  type UserId = nat

  /** The notices NickServ sends; `NoticeText` gives their wording. */
  datatype NoticeKind =
    | LoggedIn(registered: string)
    | Reclaimed(owner: string)
    | LoggedOut

  datatype Event =
    | Notice(target: string, kind: NoticeKind)
    | ForceNick(user: UserId, nick: string)
    | Quit(user: UserId, reason: string)

  /** `struct hook_user_logout_check`: the session about to log out, if any. */
  datatype LogoutCheck = LogoutCheck(u: Option<UserId>)

  /** The number of guest-nick candidates tried before giving up. */
  const MaxTries := 30
  /** Random draws lie in 0 .. 9998; the suffix is one more. */
  const DrawBound := 9999
  const ReclaimReason := "Nickname reclaimed"

  /** The text of each notice, `\2` being the bold toggle. */
  function NoticeText(kind: NoticeKind): string
  {
    match kind
    case LoggedIn(nick) => "You are now logged in as " + [Bold] + nick + [Bold] + ". Changing your nickname immediately."
    case Reclaimed(owner) => "Your nickname has been reclaimed by " + owner + "."
    case LoggedOut => "You have logged out. Changing your nickname."
  }

  predicate Distinct(s: seq<UserId>)
  {
    forall i, j :: 0 <= i < j < |s| ==> s[i] != s[j]
  }

  /** The sessions of `s` other than `me`: the ghosts of a login. */
  function Ghosts(s: seq<UserId>, me: UserId): set<UserId>
  {
    if s == [] then {}
    else Ghosts(s[..|s| - 1], me) + (if s[|s| - 1] != me then {s[|s| - 1]} else {})
  }

  /** `s` with every session in `gone` unlinked, order kept. */
  function Without(s: seq<UserId>, gone: set<UserId>): (r: seq<UserId>)
  {
    if s == [] then []
    else (if s[0] in gone then [] else [s[0]]) + Without(s[1..], gone)
  }

  /** The guest nickname built from one draw: `enforce_prefix` then the number, cut to fit `NICKLEN`. */
  function Candidate(prefix: string, nickLen: nat, draw: nat): string
  {
    Snprintf(CStr(prefix) + Utoa(1 + draw), nickLen + 1)
  }

  /** The candidates the draws give, in the order they are tried. */
  function Candidates(prefix: string, nickLen: nat, draws: seq<nat>): (r: seq<string>)
    ensures |r| == |draws|
  {
    seq(|draws|, k requires 0 <= k < |draws| => Candidate(prefix, nickLen, draws[k]))
  }

  /**
   * The nickname the guest allocation settles on: the first candidate whose
   * folded form is not `taken`, or the last candidate when every one is.
   */
  function GuestChoice(cands: seq<string>, taken: set<string>): (r: string)
    requires |cands| >= 1
    ensures r in cands
  {
    if |cands| == 1 || Fold(cands[0]) !in taken then cands[0]
    else GuestChoice(cands[1..], taken)
  }

  /** The notice and forced rename the login hook issues for a session named `uNick`. */
  function RenameEvents(me: UserId, uNick: string, record: Option<string>): seq<Event>
  {
    if record.Some? && !StrCaseEq(uNick, record.value) then
      [Notice(uNick, LoggedIn(record.value)), ForceNick(me, record.value)]
    else []
  }

  /** The notices and quits the ghost sweep issues, in list order, for the sessions of `s`. */
  function SweepEvents(s: seq<UserId>, me: UserId, owner: string, nickOf: map<UserId, string>): seq<Event>
    requires forall g :: g in s && g != me ==> g in nickOf
  {
    if s == [] then []
    else
      var g := s[|s| - 1];
      SweepEvents(s[..|s| - 1], me, owner, nickOf)
      + (if g != me then [Notice(nickOf[g], Reclaimed(owner)), Quit(g, ReclaimReason)] else [])
  }

  /**
   * The registry's bookkeeping agrees with itself: a logged-in session is
   * live and on its account's login list, every listed session is logged in
   * to that account, and no list holds a session twice.
   */
  ghost predicate Consistent(nickOf: map<UserId, string>, accountOf: map<UserId, string>, logins: map<string, seq<UserId>>)
  {
    (forall u :: u in accountOf ==> u in nickOf && accountOf[u] in logins && u in logins[accountOf[u]]) &&
    (forall a, u :: a in logins && u in logins[a] ==> u in accountOf && accountOf[u] == a) &&
    (forall a :: a in logins ==> Distinct(logins[a]))
  }

  /** `logins` once `user_delete(g)` has unlinked `g` from its account's list. */
  function LoginsAfterDelete(accountOf: map<UserId, string>, logins: map<string, seq<UserId>>, g: UserId): map<string, seq<UserId>>
    requires g in accountOf ==> accountOf[g] in logins
  {
    if g in accountOf then logins[accountOf[g] := Without(logins[accountOf[g]], {g})] else logins
  }

  class Services {
    /** `nicksvs.enforce_prefix` */
    const enforcePrefix: string
    /** `NICKLEN` */
    const nickLen: nat
    /** The live sessions and their current nicknames. */
    var nickOf: map<UserId, string>
    /** `u->myuser`: the account of each logged-in session. */
    var accountOf: map<UserId, string>
    /** `mu->logins`: the logged-in sessions of each account. */
    var logins: map<string, seq<UserId>>
    /** Registered nick records, keyed by their folded name. */
    var nicks: map<string, string>
    /** Everything sent to the network, oldest first. */
    var events: seq<Event>

    ghost predicate Valid()
      reads this
    {
      Consistent(nickOf, accountOf, logins)
    }

    constructor (prefix: string, nickLength: nat)
      ensures Valid()
      ensures enforcePrefix == prefix && nickLen == nickLength
      ensures nickOf == map[] && accountOf == map[] && logins == map[] && nicks == map[] && events == []
    {
      enforcePrefix, nickLen := prefix, nickLength;
      nickOf, accountOf, logins, nicks, events := map[], map[], map[], map[], [];
    }

    /** The folded nicknames of all live sessions. */
    function LiveNicks(): set<string>
      reads this
    {
      set u | u in nickOf :: Fold(nickOf[u])
    }

    /** `user_find_named`: some live session holds `name`, ignoring case. */
    predicate NickInUse(name: string)
      reads this
    {
      Fold(name) in LiveNicks()
    }

    /** `mynick_find`: the registered nick record named `name`, ignoring case. */
    function NickRecord(name: string): (r: Option<string>)
      reads this
      ensures r.Some? ==> Fold(name) in nicks && r.value == nicks[Fold(name)]
      ensures r.None? ==> Fold(name) !in nicks
    {
      if Fold(name) in nicks then Some(nicks[Fold(name)]) else None
    }

    /** `user_find_named` matches case-insensitively: a name is in use exactly when some live session's nick equals it up to case. */
    lemma NickInUseIff(name: string)
      ensures NickInUse(name) <==> exists u :: u in nickOf && StrCaseEq(nickOf[u], name)
    {
      if NickInUse(name) {
        var u :| u in nickOf && Fold(nickOf[u]) == Fold(name);
        assert StrCaseEq(nickOf[u], name);
      }
      if exists u :: u in nickOf && StrCaseEq(nickOf[u], name) {
        var u :| u in nickOf && StrCaseEq(nickOf[u], name);
        assert Fold(nickOf[u]) in LiveNicks();
      }
    }

    /** `mynick_find` ignores case: two names equal up to case find the same record, and a found record is filed under the folded name. */
    lemma NickRecordIgnoresCase(a: string, b: string)
      ensures StrCaseEq(a, b) ==> NickRecord(a) == NickRecord(b)
      ensures NickRecord(a).Some? <==> Fold(a) in nicks
      ensures NickRecord(a).Some? ==> NickRecord(Fold(a)) == NickRecord(a)
    {
      if NickRecord(a).Some? {
        FoldIdempotent(a);
      }
    }

    /** `user_delete`: the session leaves the registry and its account's login list. */
    method DeleteUser(g: UserId)
      requires g in accountOf ==> accountOf[g] in logins
      modifies this
      ensures nickOf == old(nickOf) - {g} && accountOf == old(accountOf) - {g}
      ensures logins == LoginsAfterDelete(old(accountOf), old(logins), g)
      ensures nicks == old(nicks) && events == old(events)
    {
      if g in accountOf {
        var a := accountOf[g];
        logins := logins[a := Without(logins[a], {g})];
      }
      nickOf := nickOf - {g};
      accountOf := accountOf - {g};
    }

    /**
     * `apply_guest_nickname`'s loop: up to `MaxTries` candidates, stopping at
     * the first one no live session holds; otherwise the last one tried.
     */
    method ChooseGuestNick(draws: seq<nat>) returns (nick: string)
      requires |draws| == MaxTries
      ensures nick == GuestChoice(Candidates(enforcePrefix, nickLen, draws), LiveNicks())
    {
      ghost var cands := Candidates(enforcePrefix, nickLen, draws);
      var tries := 0;
      nick := "";
      while tries < MaxTries
        invariant 0 <= tries <= MaxTries
        invariant forall j :: 0 <= j < tries ==> NickInUse(cands[j])
        invariant tries > 0 ==> nick == cands[tries - 1]
      {
        nick := Candidate(enforcePrefix, nickLen, draws[tries]);
        assert nick == cands[tries];
        if !NickInUse(nick) {
          GuestChoiceAt(cands, LiveNicks(), tries);
          return;
        }
        tries := tries + 1;
      }
      GuestChoiceAt(cands, LiveNicks(), MaxTries - 1);
    }

    /** `apply_guest_nickname`: one forced rename to the chosen guest nickname. */
    method ApplyGuestNickname(u: UserId, draws: seq<nat>)
      requires |draws| == MaxTries
      modifies this
      ensures events == old(events) + [ForceNick(u, GuestChoice(Candidates(enforcePrefix, nickLen, draws), LiveNicks()))]
      ensures nickOf == old(nickOf) && accountOf == old(accountOf) && logins == old(logins) && nicks == old(nicks)
    {
      var nick := ChooseGuestNick(draws);
      events := events + [ForceNick(u, nick)];
    }

    /**
     * `ns_login_hook`: a session `u` has identified. It is told to take the
     * account's registered nick when it holds another one, and every other
     * session on the account is noticed, quit and deleted.
     */
    method LoginHook(u: Option<UserId>)
      requires Valid()
      requires u.Some? ==> u.value in nickOf
      modifies this
      ensures Valid()
      ensures u.None? || u.value !in old(accountOf) ==>
        nickOf == old(nickOf) && accountOf == old(accountOf) && logins == old(logins) && events == old(events)
      ensures u.Some? && u.value in old(accountOf) ==>
        var me, acct := u.value, old(accountOf)[u.value];
        var gone := Ghosts(old(logins)[acct], me);
        && nickOf == old(nickOf) - gone
        && accountOf == old(accountOf) - gone
        && logins == old(logins)[acct := [me]]
        && events == old(events) + RenameEvents(me, old(nickOf)[me], old(NickRecord(acct)))
                                 + SweepEvents(old(logins)[acct], me, old(nickOf)[me], old(nickOf))
      ensures nicks == old(nicks)
    {
      if u.None? || u.value !in accountOf {
        return;
      }
      var me := u.value;
      var acct := accountOf[me];
      var uNick := nickOf[me];
      var record := NickRecord(acct);
      if record.Some? && !StrCaseEq(uNick, record.value) {
        events := events + [Notice(uNick, LoggedIn(record.value)), ForceNick(me, record.value)];
      }
      assert events == old(events) + RenameEvents(me, uNick, record);
      // The sweep walks a snapshot of the login list taken before any deletion.
      var sessions := logins[acct];
      ghost var nick0, account0, logins0 := nickOf, accountOf, logins;
      ListedSessions(nickOf, accountOf, logins, acct);
      SweepGhosts(me, uNick, acct, sessions);
      WithoutGhosts(sessions, me);
      SweepKeepsConsistent(nick0, account0, logins0, acct, me);
    }

    /** The ghost sweep of `ns_login_hook`: every session in `sessions` but `me` is noticed, quit and deleted. */
    method SweepGhosts(me: UserId, owner: string, acct: string, sessions: seq<UserId>)
      requires Distinct(sessions)
      requires acct in logins && logins[acct] == sessions
      requires forall x :: x in sessions && x != me ==> x in nickOf && x in accountOf && accountOf[x] == acct
      modifies this
      ensures nickOf == old(nickOf) - Ghosts(sessions, me)
      ensures accountOf == old(accountOf) - Ghosts(sessions, me)
      ensures logins == old(logins)[acct := Without(sessions, Ghosts(sessions, me))]
      ensures nicks == old(nicks)
      ensures events == old(events) + SweepEvents(sessions, me, owner, old(nickOf))
    {
      ghost var nick0, account0, logins0, events0 := nickOf, accountOf, logins, events;
      var i := 0;
      ghost var gone: set<UserId> := {};
      assert sessions[..0] == [];
      WithoutNothing(sessions);
      while i < |sessions|
        invariant 0 <= i <= |sessions|
        invariant gone == Ghosts(sessions[..i], me)
        invariant nickOf == nick0 - gone
        invariant accountOf == account0 - gone
        invariant logins == logins0[acct := Without(sessions, gone)]
        invariant nicks == old(nicks)
        invariant events == events0 + SweepEvents(sessions[..i], me, owner, nick0)
      {
        gone := SweepAt(me, owner, acct, sessions, i, nick0, account0, logins0, events0, gone);
        i := i + 1;
      }
      assert sessions[..i] == sessions;
    }

    /** The sweep's step at position `i`: the loop's bookkeeping carried one session further. */
    method SweepAt(me: UserId, owner: string, acct: string, sessions: seq<UserId>, i: nat,
                   ghost nick0: map<UserId, string>, ghost account0: map<UserId, string>,
                   ghost logins0: map<string, seq<UserId>>, ghost events0: seq<Event>, ghost gone: set<UserId>)
      returns (ghost gone': set<UserId>)
      requires Distinct(sessions) && i < |sessions|
      requires forall x :: x in sessions && x != me ==> x in nick0 && x in account0 && account0[x] == acct
      requires gone == Ghosts(sessions[..i], me)
      requires nickOf == nick0 - gone && accountOf == account0 - gone
      requires logins == logins0[acct := Without(sessions, gone)]
      requires events == events0 + SweepEvents(sessions[..i], me, owner, nick0)
      modifies this
      ensures gone' == Ghosts(sessions[..i + 1], me)
      ensures nickOf == nick0 - gone' && accountOf == account0 - gone'
      ensures logins == logins0[acct := Without(sessions, gone')]
      ensures nicks == old(nicks)
      ensures events == events0 + SweepEvents(sessions[..i + 1], me, owner, nick0)
    {
      var g := sessions[i];
      if g != me {
        SweepStep(nick0, account0, logins0, acct, sessions, me, owner, i, gone);
        ReclaimGhost(g, owner);
        gone' := gone + {g};
      } else {
        SweepSkip(nick0, sessions, me, owner, i);
        gone' := gone;
      }
    }

    /** One step of the sweep: notice ghost `g`, quit it and delete it. */
    method ReclaimGhost(g: UserId, owner: string)
      requires g in nickOf && (g in accountOf ==> accountOf[g] in logins)
      modifies this
      ensures events == old(events) + [Notice(old(nickOf)[g], Reclaimed(owner)), Quit(g, ReclaimReason)]
      ensures nickOf == old(nickOf) - {g} && accountOf == old(accountOf) - {g}
      ensures logins == LoginsAfterDelete(old(accountOf), old(logins), g)
      ensures nicks == old(nicks)
    {
      events := events + [Notice(nickOf[g], Reclaimed(owner)), Quit(g, ReclaimReason)];
      DeleteUser(g);
    }

    /** `ns_logout_hook`: a notice, then a forced rename to a guest nickname. */
    method LogoutHook(data: Option<LogoutCheck>, draws: seq<nat>)
      requires |draws| == MaxTries
      requires data.Some? && data.value.u.Some? ==> data.value.u.value in nickOf
      modifies this
      ensures nickOf == old(nickOf) && accountOf == old(accountOf) && logins == old(logins) && nicks == old(nicks)
      ensures data.None? || data.value.u.None? ==> events == old(events)
      ensures data.Some? && data.value.u.Some? ==>
        var me := data.value.u.value;
        events == old(events) + [Notice(old(nickOf)[me], LoggedOut),
                                 ForceNick(me, GuestChoice(Candidates(enforcePrefix, nickLen, draws), old(LiveNicks())))]
    {
      if data.None? || data.value.u.None? {
        return;
      }
      var me := data.value.u.value;
      events := events + [Notice(nickOf[me], LoggedOut)];
      ApplyGuestNickname(me, draws);
    }
  }

  /** The bookkeeping of one ghost's removal during the sweep. */
  lemma SweepStep(nick0: map<UserId, string>, account0: map<UserId, string>, logins0: map<string, seq<UserId>>,
                  acct: string, sessions: seq<UserId>, me: UserId, owner: string, i: nat, gone: set<UserId>)
    requires Distinct(sessions) && i < |sessions| && sessions[i] != me
    requires gone == Ghosts(sessions[..i], me)
    requires forall x :: x in sessions && x != me ==> x in nick0 && x in account0 && account0[x] == acct
    ensures var g := sessions[i];
            && g in nick0 - gone && g in account0 - gone && (account0 - gone)[g] == acct
            && Ghosts(sessions[..i + 1], me) == gone + {g}
            && nick0 - gone - {g} == nick0 - (gone + {g})
            && account0 - gone - {g} == account0 - (gone + {g})
            && LoginsAfterDelete(account0 - gone, logins0[acct := Without(sessions, gone)], g)
               == logins0[acct := Without(sessions, gone + {g})]
            && SweepEvents(sessions[..i + 1], me, owner, nick0)
               == SweepEvents(sessions[..i], me, owner, nick0)
                + [Notice((nick0 - gone)[g], Reclaimed(owner)), Quit(g, ReclaimReason)]
  {
    var g := sessions[i];
    assert sessions[..i + 1] == sessions[..i] + [g];
    assert sessions[..i + 1][..i] == sessions[..i];
    assert g !in gone by {
      GhostsMembers(sessions[..i], me);
      assert forall j :: 0 <= j < i ==> sessions[j] != g;
    }
    WithoutTwice(sessions, gone, g);
  }

  /** The sweep passes over the identifying session itself. */
  lemma SweepSkip(nick0: map<UserId, string>, sessions: seq<UserId>, me: UserId, owner: string, i: nat)
    requires i < |sessions| && sessions[i] == me
    requires forall x :: x in sessions && x != me ==> x in nick0
    ensures Ghosts(sessions[..i + 1], me) == Ghosts(sessions[..i], me)
    ensures SweepEvents(sessions[..i + 1], me, owner, nick0) == SweepEvents(sessions[..i], me, owner, nick0)
  {
    assert sessions[..i + 1] == sessions[..i] + [me];
    assert sessions[..i + 1][..i] == sessions[..i];
  }

  /** What consistency says about one account's login list. */
  lemma ListedSessions(nickOf: map<UserId, string>, accountOf: map<UserId, string>, logins: map<string, seq<UserId>>, acct: string)
    requires Consistent(nickOf, accountOf, logins) && acct in logins
    ensures Distinct(logins[acct])
    ensures forall x :: x in logins[acct] ==> x in nickOf && x in accountOf && accountOf[x] == acct
  {
  }

  /** Deleting a session keeps the registry consistent. */
  lemma DeleteKeepsConsistent(nickOf: map<UserId, string>, accountOf: map<UserId, string>, logins: map<string, seq<UserId>>, g: UserId)
    requires Consistent(nickOf, accountOf, logins)
    ensures g in accountOf ==> accountOf[g] in logins
    ensures var l := LoginsAfterDelete(accountOf, logins, g);
            Consistent(nickOf - {g}, accountOf - {g}, l) && forall acct :: acct in l ==> g !in l[acct]
  {
    if g in accountOf {
      WithoutKeepsDistinct(logins[accountOf[g]], {g});
      WithoutMembers(logins[accountOf[g]], {g});
    }
  }

  /**
   * Removing all ghosts of `me` from a consistent registry leaves it
   * consistent, with `me` alone on its account's list.
   */
  lemma SweepKeepsConsistent(nickOf: map<UserId, string>, accountOf: map<UserId, string>, logins: map<string, seq<UserId>>, acct: string, me: UserId)
    requires Consistent(nickOf, accountOf, logins)
    requires me in accountOf && accountOf[me] == acct
    ensures var gone := Ghosts(logins[acct], me);
            Consistent(nickOf - gone, accountOf - gone, logins[acct := [me]])
  {
    var gone := Ghosts(logins[acct], me);
    GhostsMembers(logins[acct], me);
    var n, a, l := nickOf - gone, accountOf - gone, logins[acct := [me]];
    forall u | u in a ensures u in n && a[u] in l && u in l[a[u]] {
      if accountOf[u] == acct {
        assert u in logins[acct] && u !in gone;
      }
    }
    forall b, u | b in l && u in l[b] ensures u in a && a[u] == b {
      if b != acct {
        assert accountOf[u] == b;
        assert u !in gone by {
          assert accountOf[u] != acct;
        }
      }
    }
  }

  /** The ghosts are exactly the listed sessions other than `me`. */
  lemma {:induction false} GhostsMembers(s: seq<UserId>, me: UserId)
    ensures forall x :: x in Ghosts(s, me) <==> x in s && x != me
  {
    if s != [] {
      var init := s[..|s| - 1];
      GhostsMembers(init, me);
      assert s == init + [s[|s| - 1]];
    }
  }

  /** Unlinking keeps exactly the sessions not in `gone`. */
  lemma {:induction false} WithoutMembers(s: seq<UserId>, gone: set<UserId>)
    ensures forall x :: x in Without(s, gone) <==> x in s && x !in gone
  {
    if s != [] {
      WithoutMembers(s[1..], gone);
      assert s == [s[0]] + s[1..];
    }
  }

  /** Unlinking sessions never duplicates one. */
  lemma {:induction false} WithoutKeepsDistinct(s: seq<UserId>, gone: set<UserId>)
    requires Distinct(s)
    ensures Distinct(Without(s, gone))
  {
    if s != [] {
      assert Distinct(s[1..]);
      WithoutKeepsDistinct(s[1..], gone);
      var rest := Without(s[1..], gone);
      WithoutMembers(s[1..], gone);
      assert s[0] !in rest by {
        assert forall j :: 1 <= j < |s| ==> s[j] != s[0];
      }
      var r := (if s[0] in gone then [] else [s[0]]) + rest;
      forall i, j | 0 <= i < j < |r| ensures r[i] != r[j] {
        if s[0] !in gone && i == 0 {
          assert r[j] == rest[j - 1];
        }
      }
    }
  }

  lemma {:induction false} WithoutNothing(s: seq<UserId>)
    ensures Without(s, {}) == s
  {
    if s != [] {
      WithoutNothing(s[1..]);
      assert s == [s[0]] + s[1..];
    }
  }

  /** Unlinking `gone` and then `g` is unlinking both at once. */
  lemma {:induction false} WithoutTwice(s: seq<UserId>, gone: set<UserId>, g: UserId)
    ensures Without(Without(s, gone), {g}) == Without(s, gone + {g})
  {
    if s != [] {
      WithoutTwice(s[1..], gone, g);
      var rest := Without(s[1..], gone);
      if s[0] in gone {
        assert Without(s, gone) == rest;
      } else {
        var t := [s[0]] + rest;
        assert t[0] == s[0] && t[1..] == rest;
      }
    }
  }

  /** Unlinking every session that is not `me` leaves `me` alone, if it was there once. */
  lemma {:induction false} WithoutAllBut(s: seq<UserId>, gone: set<UserId>, me: UserId)
    requires Distinct(s)
    requires forall x :: x in s ==> (x in gone <==> x != me)
    ensures Without(s, gone) == if me in s then [me] else []
  {
    if s != [] {
      assert Distinct(s[1..]);
      assert forall x :: x in s[1..] ==> x in s;
      WithoutAllBut(s[1..], gone, me);
      if s[0] == me {
        assert me !in s[1..] by {
          assert forall j :: 1 <= j < |s| ==> s[j] != s[0];
        }
      } else {
        assert me in s <==> me in s[1..];
      }
    }
  }

  /** After the sweep only the identifying session is left on a login list that held it once. */
  lemma WithoutGhosts(s: seq<UserId>, me: UserId)
    requires Distinct(s) && me in s
    ensures Without(s, Ghosts(s, me)) == [me]
  {
    GhostsMembers(s, me);
    WithoutAllBut(s, Ghosts(s, me), me);
  }

  /** The choice is the candidate at the first free position, or the last one. */
  lemma {:induction false} GuestChoiceAt(cands: seq<string>, taken: set<string>, k: nat)
    requires k < |cands|
    requires forall j :: 0 <= j < k ==> Fold(cands[j]) in taken
    requires Fold(cands[k]) !in taken || k == |cands| - 1
    ensures GuestChoice(cands, taken) == cands[k]
  {
    if k > 0 {
      GuestChoiceAt(cands[1..], taken, k - 1);
    }
  }

  /** A candidate fits `NICKLEN` and is a prefix of the untruncated text. */
  lemma CandidateFits(prefix: string, nickLen: nat, draw: nat)
    ensures |Candidate(prefix, nickLen, draw)| <= nickLen
    ensures Candidate(prefix, nickLen, draw) <= CStr(prefix) + Utoa(1 + draw)
  {
  }

  /**
   * With room for the prefix and four digits, a candidate is the prefix
   * followed by the decimal form of the draw plus one, and that number reads
   * back from it.
   */
  lemma CandidateHoldsNumber(prefix: string, nickLen: nat, draw: nat)
    requires NUL !in prefix && draw < DrawBound && |prefix| + 4 <= nickLen
    ensures Candidate(prefix, nickLen, draw) == prefix + Utoa(1 + draw)
    ensures var c := Candidate(prefix, nickLen, draw);
            (forall i :: |prefix| <= i < |c| ==> IsDigit(c[i])) && DecimalValue(c[|prefix|..]) == 1 + draw
  {
    CStrOfPlainText(prefix);
    assert Pow10(4) == 10000;
    UtoaLength(1 + draw, 4);
    DecimalRoundTrip(1 + draw);
    var c := prefix + Utoa(1 + draw);
    assert c[|prefix|..] == Utoa(1 + draw);
  }

  /**
   * The guest choice is the candidate at some position `k`: free unless it is
   * the last one tried, with every candidate before it taken.
   */
  lemma {:induction false} GuestChoiceIsFirstFree(cands: seq<string>, taken: set<string>) returns (k: nat)
    requires |cands| >= 1
    ensures k < |cands| && GuestChoice(cands, taken) == cands[k]
    ensures Fold(cands[k]) !in taken || k == |cands| - 1
    ensures forall j :: 0 <= j < k ==> Fold(cands[j]) in taken
  {
    if |cands| == 1 || Fold(cands[0]) !in taken {
      k := 0;
    } else {
      var rest := cands[1..];
      var k' := GuestChoiceIsFirstFree(rest, taken);
      k := k' + 1;
      assert cands[k] == rest[k'];
      forall j | 0 <= j < k ensures Fold(cands[j]) in taken {
        if j > 0 {
          assert cands[j] == rest[j - 1];
        }
      }
    }
  }

  /** When at least one candidate is free, the nickname chosen is free. */
  lemma GuestChoiceFreeWhenAnyFree(cands: seq<string>, taken: set<string>, free: nat)
    requires free < |cands| && Fold(cands[free]) !in taken
    ensures Fold(GuestChoice(cands, taken)) !in taken
  {
    var k := GuestChoiceIsFirstFree(cands, taken);
  }

  /** When every candidate is taken, the last one is applied regardless. */
  lemma GuestChoiceAllTaken(cands: seq<string>, taken: set<string>)
    requires |cands| >= 1
    requires forall j :: 0 <= j < |cands| ==> Fold(cands[j]) in taken
    ensures GuestChoice(cands, taken) == cands[|cands| - 1]
  {
    var k := GuestChoiceIsFirstFree(cands, taken);
  }

  /** The sweep quits exactly the ghosts, each with the reclaim reason. */
  lemma {:induction false} SweepQuitsGhosts(s: seq<UserId>, me: UserId, owner: string, nickOf: map<UserId, string>, g: UserId, reason: string)
    requires forall x :: x in s && x != me ==> x in nickOf
    ensures Quit(g, reason) in SweepEvents(s, me, owner, nickOf) <==> g in s && g != me && reason == ReclaimReason
  {
    if s != [] {
      var init := s[..|s| - 1];
      assert s == init + [s[|s| - 1]];
      SweepQuitsGhosts(init, me, owner, nickOf, g, reason);
    }
  }

  /** Every ghost is told, under its own nickname, who reclaimed it. */
  lemma {:induction false} SweepNoticesGhosts(s: seq<UserId>, me: UserId, owner: string, nickOf: map<UserId, string>, g: UserId)
    requires forall x :: x in s && x != me ==> x in nickOf
    requires g in s && g != me
    ensures Notice(nickOf[g], Reclaimed(owner)) in SweepEvents(s, me, owner, nickOf)
  {
    var init := s[..|s| - 1];
    assert s == init + [s[|s| - 1]];
    if g != s[|s| - 1] {
      SweepNoticesGhosts(init, me, owner, nickOf, g);
    }
  }

  /** The sweep never renames anyone. */
  lemma {:induction false} SweepNeverRenames(s: seq<UserId>, me: UserId, owner: string, nickOf: map<UserId, string>, e: Event)
    requires forall x :: x in s && x != me ==> x in nickOf
    requires e in SweepEvents(s, me, owner, nickOf)
    ensures !e.ForceNick?
  {
    var init := s[..|s| - 1];
    if e in SweepEvents(init, me, owner, nickOf) {
      SweepNeverRenames(init, me, owner, nickOf, e);
    }
  }

  /** A rename is issued exactly when a nick record exists and differs from the session's nick beyond case. */
  lemma RenameOnlyOnMismatch(me: UserId, uNick: string, record: Option<string>, u: UserId, nick: string)
    ensures ForceNick(u, nick) in RenameEvents(me, uNick, record)
        <==> record == Some(nick) && u == me && !StrCaseEq(uNick, nick)
  {
  }
}
