/** Teams and team members as the team repository holds them, and the rules
    AdminManager enforces when it saves members, logs them in and assigns
    communities to teams. */
module Teams {
  import opened Common

  datatype TeamMember = TeamMember(
    teamId: Id,
    userName: string,
    firstName: string,
    lastName: string,
    isActive: bool,
    externalUserId: Option<string>,
    lastSuccessfulLogin: Option<Time>,
    agreementSignDate: Option<Time>)

  datatype AssignedCommunity = AssignedCommunity(code: string, dateAssigned: Time)

  datatype Team = Team(name: string, assignedCommunities: seq<AssignedCommunity>)

  // ---------------------------------------------------------------------------
  // User names

  /** No two stored members, active or inactive, share a user name. */
  ghost predicate UniqueUserNames(members: map<Id, TeamMember>)
  {
    forall a, b :: a in members && b in members && a != b ==> members[a].userName != members[b].userName
  }

  /** The test SaveTeamMemberCommand makes before saving: an active or inactive
      member has the user name, leaving out the member being saved only when
      the command carries an id (`Id != null`). */
  predicate UserNameTakenOnSave(members: map<Id, TeamMember>, self: Option<Id>, userName: string)
  {
    exists k :: k in members && members[k].userName == userName && (self.None? || k != self.value)
  }

  /** The key a saved member is stored under: its own id, or the one the
      repository hands out when the member has none yet. */
  function SaveKey(self: Option<Id>, freshId: Id): Id
  {
    if IsNullOrEmpty(self) then freshId else self.value
  }

  /** The save-time test is exactly what keeps user names unique: the store after
      the save has unique user names if and only if the test passed. */
  lemma SaveTestIsExact(members: map<Id, TeamMember>, self: Option<Id>, m: TeamMember, freshId: Id)
    requires UniqueUserNames(members)
    requires "" !in members && freshId !in members && freshId != ""
    ensures UniqueUserNames(members[SaveKey(self, freshId) := m]) <==> !UserNameTakenOnSave(members, self, m.userName)
  {
    var key := SaveKey(self, freshId);
    var after := members[key := m];
    if UserNameTakenOnSave(members, self, m.userName) {
      var k :| k in members && members[k].userName == m.userName && (self.None? || k != self.value);
      assert k != key;
      assert after[k].userName == after[key].userName;
    } else {
      forall a, b | a in after && b in after && a != b
        ensures after[a].userName != after[b].userName
      {
        if a == key {
          assert b in members && b != key;
        } else if b == key {
          assert a in members && a != key;
        }
      }
    }
  }

  // ---------------------------------------------------------------------------
  // Log in

  /** The members GetMembers(userName, activeOnly) returns. */
  function ActiveMembersNamed(members: map<Id, TeamMember>, userName: string): set<Id>
  {
    set k | k in members && members[k].isActive && members[k].userName == userName
  }

  /** With unique user names the log-in lookup never finds two members. */
  lemma UniqueUserNamesMakeLoginUnambiguous(members: map<Id, TeamMember>, userName: string)
    requires UniqueUserNames(members)
    ensures |ActiveMembersNamed(members, userName)| <= 1
  {
    var found := ActiveMembersNamed(members, userName);
    if found != {} {
      var k :| k in found;
      assert found == {k};
    }
  }

  /** A member that has logged in has an external user id bound. */
  predicate LoginBound(m: TeamMember)
  {
    m.lastSuccessfulLogin.Some? ==> m.externalUserId.Some?
  }

  datatype LoginRejection =
    | ExternalIdMismatch(boundId: string, userId: string)
    | LoggedInWithoutExternalId

  /** LogInUserCommand on the member the lookup found: the two consistency checks,
      then binding the external id on first login and stamping the login time. */
  function LogInMember(m: TeamMember, userId: string, now: Time): (r: Result<TeamMember, LoginRejection>)
    ensures r.Err? <==> (m.externalUserId.Some? && m.externalUserId.value != userId)
                        || (m.externalUserId.None? && m.lastSuccessfulLogin.Some?)
    ensures m.externalUserId.Some? && m.externalUserId.value != userId ==>
              r == Err(ExternalIdMismatch(m.externalUserId.value, userId))
    ensures r.Ok? ==> r.value == m.(externalUserId := Some(userId), lastSuccessfulLogin := Some(now))
    ensures r.Ok? ==> LoginBound(r.value)
  {
    if m.externalUserId.Some? && m.externalUserId.value != userId then
      Err(ExternalIdMismatch(m.externalUserId.value, userId))
    else if m.externalUserId.None? && m.lastSuccessfulLogin.Some? then
      Err(LoggedInWithoutExternalId)
    else
      var bound := if m.lastSuccessfulLogin.None? || IsNullOrEmpty(m.externalUserId)
                   then m.(externalUserId := Some(userId)) else m;
      Ok(bound.(lastSuccessfulLogin := Some(now)))
  }

  /** The first successful login binds the caller's external id for good: a later
      login of the same member succeeds exactly when it comes with that id. */
  lemma {:induction false} LoginBindsExternalId(m: TeamMember, first: string, t1: Time, later: string, t2: Time)
    requires LogInMember(m, first, t1).Ok?
    ensures LogInMember(LogInMember(m, first, t1).value, later, t2).Ok? <==> later == first
    ensures LogInMember(LogInMember(m, first, t1).value, later, t2).Err? ==>
              LogInMember(LogInMember(m, first, t1).value, later, t2).error == ExternalIdMismatch(first, later)
  {
  }

  // ---------------------------------------------------------------------------
  // Community assignment

  /** The team's assigned communities include `code`. */
  predicate Holds(acs: seq<AssignedCommunity>, code: string)
  {
    exists ac :: ac in acs && ac.code == code
  }

  /** No community code is assigned to two different teams. */
  ghost predicate CommunitiesExclusive(teams: map<Id, Team>)
  {
    forall t1, t2, code :: t1 in teams && t2 in teams && t1 != t2 && Holds(teams[t1].assignedCommunities, code)
      ==> !Holds(teams[t2].assignedCommunities, code)
  }

  /** A team other than `teamId` holds `code`. */
  predicate HeldByOtherTeam(teams: map<Id, Team>, teamId: Id, code: string)
  {
    exists t :: t in teams && t != teamId && Holds(teams[t].assignedCommunities, code)
  }

  /** The codes AssignCommunitiesToTeamCommand reports as already assigned: the
      requested codes held by other teams, each once, in an order that follows the
      request (Enumerable.Intersect). */
  function AlreadyAssigned(teams: map<Id, Team>, teamId: Id, requested: seq<string>): (r: seq<string>)
    ensures forall c :: c in r <==> c in requested && HeldByOtherTeam(teams, teamId, c)
    ensures NoDuplicates(r)
    ensures IsSubsequence(r, requested)
    ensures r == [] <==> forall c :: c in requested ==> !HeldByOtherTeam(teams, teamId, c)
  {
    var held := Filter(requested, c => HeldByOtherTeam(teams, teamId, c));
    var r := Distinct(held);
    SubsequenceTransitive(r, held, requested);
    assert r != [] ==> r[0] in r;
    r
  }

  /** The codes of a list of assignments, in order. */
  function Codes(acs: seq<AssignedCommunity>): seq<string>
  {
    Select(acs, (ac: AssignedCommunity) => ac.code)
  }

  /** Each code assigned at `now`, in order. */
  function Dated(codes: seq<string>, now: Time): (r: seq<AssignedCommunity>)
    ensures Codes(r) == codes
    ensures forall ac :: ac in r ==> ac.dateAssigned == now && ac.code in codes
    ensures forall c :: c in codes ==> Holds(r, c)
  {
    var r := seq(|codes|, i requires 0 <= i < |codes| => AssignedCommunity(codes[i], now));
    assert forall c :: c in codes ==> Holds(r, c) by {
      forall c | c in codes ensures Holds(r, c) {
        var i :| 0 <= i < |codes| && codes[i] == c;
        assert r[i] in r;
      }
    }
    r
  }

  /** The assignments AssignCommunitiesToTeamCommand appends: every requested code the
      team does not hold yet, in request order and with its repeats, dated `now`. */
  function NewAssignments(held: seq<AssignedCommunity>, requested: seq<string>, now: Time): (r: seq<AssignedCommunity>)
    ensures forall ac :: ac in r ==> ac.dateAssigned == now && ac.code in requested && !Holds(held, ac.code)
    ensures forall c :: c in requested && !Holds(held, c) ==> Holds(r, c)
    ensures IsSubsequence(Codes(r), requested)
    ensures forall c :: multiset(Codes(r))[c] == if Holds(held, c) then 0 else multiset(requested)[c]
  {
    FilterCounts(requested, c => !Holds(held, c));
    Dated(Filter(requested, c => !Holds(held, c)), now)
  }

  /** The team after a successful assignment: its old assignments, then the new ones. */
  function WithAssigned(team: Team, requested: seq<string>, now: Time): Team
  {
    team.(assignedCommunities := team.assignedCommunities + NewAssignments(team.assignedCommunities, requested, now))
  }

  /** After an assignment the team holds exactly its old codes and the requested ones. */
  lemma AssignHoldsOldAndRequested(team: Team, requested: seq<string>, now: Time, code: string)
    ensures Holds(WithAssigned(team, requested, now).assignedCommunities, code)
            <==> Holds(team.assignedCommunities, code) || code in requested
  {
    var held := team.assignedCommunities;
    var added := NewAssignments(held, requested, now);
    if Holds(held + added, code) {
      var ac: AssignedCommunity :| ac in held + added && ac.code == code;
      if ac in added {
        assert code in requested;
      } else {
        assert ac in held;
      }
    }
    if Holds(held, code) {
      var ac: AssignedCommunity :| ac in held && ac.code == code;
      assert ac in held + added;
    } else if code in requested {
      var ac: AssignedCommunity :| ac in added && ac.code == code;
      assert ac in held + added;
    }
  }

  /** An assignment that passed the already-assigned check keeps every community
      code with at most one team. */
  lemma AssignKeepsCommunitiesExclusive(teams: map<Id, Team>, teamId: Id, requested: seq<string>, now: Time)
    requires teamId in teams
    requires CommunitiesExclusive(teams)
    requires AlreadyAssigned(teams, teamId, requested) == []
    ensures CommunitiesExclusive(teams[teamId := WithAssigned(teams[teamId], requested, now)])
  {
    var after := teams[teamId := WithAssigned(teams[teamId], requested, now)];
    forall t1, t2, code | t1 in after && t2 in after && t1 != t2 && Holds(after[t1].assignedCommunities, code)
      ensures !Holds(after[t2].assignedCommunities, code)
    {
      AssignHoldsOldAndRequested(teams[teamId], requested, now, code);
      if t1 == teamId {
        if code in requested {
          assert !HeldByOtherTeam(teams, teamId, code);
        }
      } else if t2 == teamId {
        assert after[t1] == teams[t1];
        assert HeldByOtherTeam(teams, teamId, code);
      }
    }
  }

  /** The team after UnassignCommunitiesFromTeamCommand: the assignments whose code
      is not in the request, in their order. */
  function WithUnassigned(team: Team, requested: seq<string>): (r: Team)
    ensures IsSubsequence(r.assignedCommunities, team.assignedCommunities)
    ensures forall ac :: ac in r.assignedCommunities <==> ac in team.assignedCommunities && ac.code !in requested
    ensures forall ac :: multiset(r.assignedCommunities)[ac] ==
                         if ac.code in requested then 0 else multiset(team.assignedCommunities)[ac]
    ensures r.name == team.name
  {
    FilterCounts(team.assignedCommunities, (ac: AssignedCommunity) => ac.code !in requested);
    team.(assignedCommunities := Filter(team.assignedCommunities, (ac: AssignedCommunity) => ac.code !in requested))
  }

  /** Unassigning only removes codes, so it keeps every code with at most one team. */
  lemma UnassignKeepsCommunitiesExclusive(teams: map<Id, Team>, teamId: Id, requested: seq<string>)
    requires teamId in teams
    requires CommunitiesExclusive(teams)
    ensures CommunitiesExclusive(teams[teamId := WithUnassigned(teams[teamId], requested)])
  {
    var after := teams[teamId := WithUnassigned(teams[teamId], requested)];
    forall t1, t2, code | t1 in after && t2 in after && t1 != t2 && Holds(after[t1].assignedCommunities, code)
      ensures !Holds(after[t2].assignedCommunities, code)
    {
      var ac: AssignedCommunity :| ac in after[t1].assignedCommunities && ac.code == code;
      assert ac in teams[t1].assignedCommunities;
      assert !Holds(teams[t2].assignedCommunities, code);
      assert forall x :: x in after[t2].assignedCommunities ==> x in teams[t2].assignedCommunities;
    }
  }
}
