/** AdminManager's command handlers over an in-memory stand-in for the team and
    supplier repositories: each handler fetches a record, applies its rule,
    updates the record and stores it back. */
module Admin {
  import opened Common
  import opened Teams
  import opened Suppliers

  /** The exceptions the handlers throw. */
  datatype AdminError =
    | NotFound(id: string)
    | UsernameAlreadyExists(userName: string)
    | CommunitiesAlreadyAssigned(codes: seq<string>)
    | MoreThanOneMatch(userName: string)      // SingleOrDefault over a lookup that found two
    | LoginRejected(login: LoginRejection)
    | SupplierRejected(supplier: SupplierRejection)

  datatype LogInResponse = FailedLogin(userName: string) | SuccessfulLogin(profile: TeamMember)

  class AdminManager {
    var teams: map<Id, Team>
    var members: map<Id, TeamMember>
    var suppliers: map<Id, Supplier>

    /** The store's invariant: no member is stored under an empty id, user names
        are unique and no community code belongs to two teams. */
    ghost predicate Valid()
      reads this
    {
      "" !in members && UniqueUserNames(members) && CommunitiesExclusive(teams)
    }

    constructor (teams: map<Id, Team>, members: map<Id, TeamMember>, suppliers: map<Id, Supplier>)
      requires "" !in members && UniqueUserNames(members) && CommunitiesExclusive(teams)
      ensures Valid()
      ensures this.teams == teams && this.members == members && this.suppliers == suppliers
    {
      this.teams := teams;
      this.members := members;
      this.suppliers := suppliers;
    }

    // -------------------------------------------------------------------------
    // Team members

    /** SaveTeamMemberCommand: refused when another member has the user name;
        otherwise the member is stored under its id, or under `freshId` (the id the
        repository hands out) when it has none. */
    method SaveTeamMember(self: Option<Id>, member: TeamMember, freshId: Id) returns (r: Result<Id, AdminError>)
      requires Valid()
      requires freshId != "" && freshId !in members
      modifies this
      ensures Valid()
      ensures UserNameTakenOnSave(old(members), self, member.userName) ==>
                r == Err(UsernameAlreadyExists(member.userName)) && members == old(members)
      ensures !UserNameTakenOnSave(old(members), self, member.userName) ==>
                r == Ok(SaveKey(self, freshId)) && members == old(members)[SaveKey(self, freshId) := member]
      ensures teams == old(teams) && suppliers == old(suppliers)
    {
      if UserNameTakenOnSave(members, self, member.userName) {
        return Err(UsernameAlreadyExists(member.userName));
      }
      SaveTestIsExact(members, self, member, freshId);
      var id := SaveKey(self, freshId);
      members := members[id := member];
      r := Ok(id);
    }

    /** ValidateTeamMemberCommand: whether the user name is free. It leaves the member
        itself out when its id is not null or empty, and in a valid store it answers
        exactly the opposite of the test SaveTeamMemberCommand makes. */
    function ValidateTeamMember(self: Option<Id>, userName: string): (unique: bool)
      reads this
      requires "" !in members
      ensures unique <==> !UserNameTakenOnSave(members, self, userName)
    {
      !exists k :: k in members && members[k].userName == userName && (IsNullOrEmpty(self) || k != self.value)
    }

    /** DeleteTeamMemberCommand: the member must belong to the team. */
    method DeleteTeamMember(teamId: Id, memberId: Id) returns (r: Result<(), AdminError>)
      requires Valid()
      modifies this
      ensures Valid()
      ensures memberId in old(members) && old(members)[memberId].teamId == teamId ==>
                r == Ok(()) && members == old(members) - {memberId}
      ensures !(memberId in old(members) && old(members)[memberId].teamId == teamId) ==>
                r == Err(NotFound(memberId)) && members == old(members)
      ensures teams == old(teams) && suppliers == old(suppliers)
    {
      if memberId in members && members[memberId].teamId == teamId {
        members := members - {memberId};
        r := Ok(());
      } else {
        r := Err(NotFound(memberId));
      }
    }

    /** ActivateTeamMemberCommand (active = true) and DeactivateTeamMemberCommand
        (active = false): the member must belong to the team; only IsActive changes. */
    method SetTeamMemberActive(teamId: Id, memberId: Id, active: bool) returns (r: Result<(), AdminError>)
      requires Valid()
      modifies this
      ensures Valid()
      ensures !(memberId in old(members) && old(members)[memberId].teamId == teamId) ==>
                r == Err(NotFound(memberId)) && members == old(members)
      ensures memberId in old(members) && old(members)[memberId].teamId == teamId ==>
                r == Ok(()) && members == old(members)[memberId := old(members)[memberId].(isActive := active)]
      ensures teams == old(teams) && suppliers == old(suppliers)
    {
      if !(memberId in members && members[memberId].teamId == teamId) {
        return Err(NotFound(memberId));
      }
      var member := members[memberId];
      member := member.(isActive := active);
      members := members[memberId := member];
      r := Ok(());
    }

    /** LogInUserCommand: an unknown or inactive user name is a failed login; a member
        whose external id does not match, or who logged in without one, is refused;
        otherwise the external id is bound and the login time stamped. The lookup
        throws when it finds two members, which a valid store rules out
        (UniqueUserNamesMakeLoginUnambiguous). */
    method LogIn(userName: string, userId: string, now: Time) returns (r: Result<LogInResponse, AdminError>)
      modifies this
      ensures old(Valid()) ==> Valid()
      ensures ActiveMembersNamed(old(members), userName) == {} ==>
                r == Ok(FailedLogin(userName)) && members == old(members)
      ensures |ActiveMembersNamed(old(members), userName)| > 1 ==>
                r == Err(MoreThanOneMatch(userName)) && members == old(members)
      ensures forall id :: ActiveMembersNamed(old(members), userName) == {id} ==>
                match LogInMember(old(members)[id], userId, now)
                case Err(e) => r == Err(LoginRejected(e)) && members == old(members)
                case Ok(m) => r == Ok(SuccessfulLogin(m)) && members == old(members)[id := m]
      ensures (forall k :: k in old(members) ==> LoginBound(old(members)[k])) ==>
                forall k :: k in members ==> LoginBound(members[k])
      ensures teams == old(teams) && suppliers == old(suppliers)
    {
      var found := ActiveMembersNamed(members, userName);
      if found == {} {
        return Ok(FailedLogin(userName));
      }
      var id :| id in found;
      if found != {id} {
        assert |found| > 1 by {
          var other :| other in found && other != id;
          assert other in found - {id};
          assert |found - {id}| == |found| - 1;
        }
        return Err(MoreThanOneMatch(userName));
      }
      var member := members[id];
      match LogInMember(member, userId, now)
      case Err(e) =>
        r := Err(LoginRejected(e));
      case Ok(m) =>
        assert m.userName == member.userName;
        members := members[id := m];
        r := Ok(SuccessfulLogin(m));
    }

    /** SignResponderAgreementCommand: the active member with the user name records
        the signature date. */
    method SignResponderAgreement(userName: string, signatureDate: Time) returns (r: Result<(), AdminError>)
      modifies this
      ensures old(Valid()) ==> Valid()
      ensures ActiveMembersNamed(old(members), userName) == {} ==>
                r == Err(NotFound(userName)) && members == old(members)
      ensures |ActiveMembersNamed(old(members), userName)| > 1 ==>
                r == Err(MoreThanOneMatch(userName)) && members == old(members)
      ensures forall id :: ActiveMembersNamed(old(members), userName) == {id} ==>
                r == Ok(()) && members == old(members)[id := old(members)[id].(agreementSignDate := Some(signatureDate))]
      ensures teams == old(teams) && suppliers == old(suppliers)
    {
      var found := ActiveMembersNamed(members, userName);
      if found == {} {
        return Err(NotFound(userName));
      }
      var id :| id in found;
      if found != {id} {
        assert |found| > 1 by {
          var other :| other in found && other != id;
          assert other in found - {id};
          assert |found - {id}| == |found| - 1;
        }
        return Err(MoreThanOneMatch(userName));
      }
      var member := members[id];
      member := member.(agreementSignDate := Some(signatureDate));
      members := members[id := member];
      r := Ok(());
    }

    // -------------------------------------------------------------------------
    // Teams and communities

    /** AssignCommunitiesToTeamCommand: the team must exist and no requested code may
        belong to another team; the team keeps its assignments and gains the
        requested codes it did not hold, dated `now`. */
    method AssignCommunitiesToTeam(teamId: Id, codes: seq<string>, now: Time) returns (r: Result<(), AdminError>)
      requires Valid()
      modifies this
      ensures Valid()
      ensures teamId !in old(teams) ==> r == Err(NotFound(teamId)) && teams == old(teams)
      ensures teamId in old(teams) && AlreadyAssigned(old(teams), teamId, codes) != [] ==>
                r == Err(CommunitiesAlreadyAssigned(AlreadyAssigned(old(teams), teamId, codes))) && teams == old(teams)
      ensures teamId in old(teams) && AlreadyAssigned(old(teams), teamId, codes) == [] ==>
                r == Ok(()) && teams == old(teams)[teamId := WithAssigned(old(teams)[teamId], codes, now)]
      ensures r.Ok? ==> IsSubsequence(old(teams)[teamId].assignedCommunities, teams[teamId].assignedCommunities)
      ensures members == old(members) && suppliers == old(suppliers)
    {
      if teamId !in teams {
        return Err(NotFound(teamId));
      }
      var taken := AlreadyAssigned(teams, teamId, codes);
      if taken != [] {
        return Err(CommunitiesAlreadyAssigned(taken));
      }
      AssignKeepsCommunitiesExclusive(teams, teamId, codes, now);
      var team := teams[teamId];
      var added := NewAssignments(team.assignedCommunities, codes, now);
      PrefixIsSubsequence(team.assignedCommunities, added);
      team := team.(assignedCommunities := team.assignedCommunities + added);
      teams := teams[teamId := team];
      r := Ok(());
    }

    /** UnassignCommunitiesFromTeamCommand: the team must exist; it loses exactly the
        assignments whose code is requested, and no other team changes. */
    method UnassignCommunitiesFromTeam(teamId: Id, codes: seq<string>) returns (r: Result<(), AdminError>)
      requires Valid()
      modifies this
      ensures Valid()
      ensures teamId !in old(teams) ==> r == Err(NotFound(teamId)) && teams == old(teams)
      ensures teamId in old(teams) ==>
                r == Ok(()) && teams == old(teams)[teamId := WithUnassigned(old(teams)[teamId], codes)]
      ensures members == old(members) && suppliers == old(suppliers)
    {
      if teamId !in teams {
        return Err(NotFound(teamId));
      }
      UnassignKeepsCommunitiesExclusive(teams, teamId, codes);
      var team := WithUnassigned(teams[teamId], codes);
      teams := teams[teamId := team];
      r := Ok(());
    }

    // -------------------------------------------------------------------------
    // Suppliers

    /** ClaimSupplierCommand, with the claiming team taken off the shared list (the
        source leaves it there; see Suppliers.RemoveShareClaimBreaksSharing); keeps
        the sharing invariant of the supplier. */
    method ClaimSupplier(supplierId: Id, teamId: Id) returns (r: Result<Id, AdminError>)
      modifies this
      ensures supplierId !in old(suppliers) ==> r == Err(NotFound(supplierId)) && suppliers == old(suppliers)
      ensures supplierId in old(suppliers) ==>
                match ClaimDroppingShare(old(suppliers)[supplierId], teamId)
                case Err(e) => r == Err(SupplierRejected(e)) && suppliers == old(suppliers)
                case Ok(s) => r == Ok(supplierId) && suppliers == old(suppliers)[supplierId := s]
      ensures forall k :: k in old(suppliers) && SharingValid(old(suppliers)[k]) ==> SharingValid(suppliers[k])
      ensures teams == old(teams) && members == old(members)
    {
      if supplierId !in suppliers {
        return Err(NotFound(supplierId));
      }
      match ClaimDroppingShare(suppliers[supplierId], teamId)
      case Err(e) =>
        r := Err(SupplierRejected(e));
      case Ok(s) =>
        suppliers := suppliers[supplierId := s];
        r := Ok(supplierId);
    }

    /** ShareSupplierWithTeamCommand; keeps the sharing invariant of the supplier. */
    method ShareSupplier(supplierId: Id, teamId: Id) returns (r: Result<Id, AdminError>)
      modifies this
      ensures supplierId !in old(suppliers) ==> r == Err(NotFound(supplierId)) && suppliers == old(suppliers)
      ensures supplierId in old(suppliers) ==>
                match Share(old(suppliers)[supplierId], teamId)
                case Err(e) => r == Err(SupplierRejected(e)) && suppliers == old(suppliers)
                case Ok(s) => r == Ok(supplierId) && suppliers == old(suppliers)[supplierId := s]
      ensures forall k :: k in old(suppliers) && SharingValid(old(suppliers)[k]) ==> SharingValid(suppliers[k])
      ensures teams == old(teams) && members == old(members)
    {
      if supplierId !in suppliers {
        return Err(NotFound(supplierId));
      }
      match Share(suppliers[supplierId], teamId)
      case Err(e) =>
        r := Err(SupplierRejected(e));
      case Ok(s) =>
        suppliers := suppliers[supplierId := s];
        r := Ok(supplierId);
    }

    /** UnshareSupplierWithTeamCommand; keeps the sharing invariant of the supplier. */
    method UnshareSupplier(supplierId: Id, teamId: Id) returns (r: Result<Id, AdminError>)
      modifies this
      ensures supplierId !in old(suppliers) ==> r == Err(NotFound(supplierId)) && suppliers == old(suppliers)
      ensures supplierId in old(suppliers) ==>
                match Unshare(old(suppliers)[supplierId], teamId)
                case Err(e) => r == Err(SupplierRejected(e)) && suppliers == old(suppliers)
                case Ok(s) => r == Ok(supplierId) && suppliers == old(suppliers)[supplierId := s]
      ensures forall k :: k in old(suppliers) && SharingValid(old(suppliers)[k]) ==> SharingValid(suppliers[k])
      ensures teams == old(teams) && members == old(members)
    {
      if supplierId !in suppliers {
        return Err(NotFound(supplierId));
      }
      match Unshare(suppliers[supplierId], teamId)
      case Err(e) =>
        r := Err(SupplierRejected(e));
      case Ok(s) =>
        suppliers := suppliers[supplierId := s];
        r := Ok(supplierId);
    }

    /** RemoveSupplierCommand: the supplier leaves its primary team and every team it
        was shared with. */
    method RemoveSupplier(supplierId: Id) returns (r: Result<Id, AdminError>)
      modifies this
      ensures supplierId !in old(suppliers) ==> r == Err(NotFound(supplierId)) && suppliers == old(suppliers)
      ensures supplierId in old(suppliers) ==>
                r == Ok(supplierId) && suppliers == old(suppliers)[supplierId := Remove(old(suppliers)[supplierId])]
      ensures forall k :: k in old(suppliers) && SharingValid(old(suppliers)[k]) ==> SharingValid(suppliers[k])
      ensures teams == old(teams) && members == old(members)
    {
      if supplierId !in suppliers {
        return Err(NotFound(supplierId));
      }
      suppliers := suppliers[supplierId := Remove(suppliers[supplierId])];
      r := Ok(supplierId);
    }

    /** ActivateSupplierCommand (Active) and DeactivateSupplierCommand (Inactive): only
        the status changes. */
    method SetSupplierStatus(supplierId: Id, status: SupplierStatus) returns (r: Result<Id, AdminError>)
      modifies this
      ensures supplierId !in old(suppliers) ==> r == Err(NotFound(supplierId)) && suppliers == old(suppliers)
      ensures supplierId in old(suppliers) ==>
                r == Ok(supplierId) && suppliers == old(suppliers)[supplierId := old(suppliers)[supplierId].(status := status)]
      ensures forall k :: k in old(suppliers) && SharingValid(old(suppliers)[k]) ==> SharingValid(suppliers[k])
      ensures teams == old(teams) && members == old(members)
    {
      if supplierId !in suppliers {
        return Err(NotFound(supplierId));
      }
      var supplier := suppliers[supplierId];
      supplier := supplier.(status := status);
      suppliers := suppliers[supplierId := supplier];
      r := Ok(supplierId);
    }
  }
}
