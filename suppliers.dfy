/** Suppliers and the ownership rules AdminManager applies to them: one primary
    team that claims a supplier, and secondary teams it is shared with. */
module Suppliers {
  import opened Common

  datatype SupplierStatus = Active | Inactive

  /** A supplier record as the supplier repository returns it; `primaryTeam` is
      the id of its Team (none when the id is null). */
  datatype Supplier = Supplier(
    legalName: string,
    gstNumber: string,
    primaryTeam: Option<Id>,
    sharedWithTeams: seq<Id>,
    status: SupplierStatus)

  datatype SupplierRejection =
    | AlreadyHasPrimaryTeam
    | CannotShareWithPrimaryTeam
    | AlreadyShared
    | CannotRemovePrimaryTeam
    | NotShared

  /** The sharing invariant: no team is listed twice and the primary team is never
      among the teams the supplier is shared with. */
  predicate SharingValid(s: Supplier)
  {
    NoDuplicates(s.sharedWithTeams) && (s.primaryTeam.Some? ==> s.primaryTeam.value !in s.sharedWithTeams)
  }

  /** ClaimSupplierCommand as written: a supplier without a primary team becomes
      the requesting team's and active; its shared list is left as it was. */
  function Claim(s: Supplier, teamId: Id): (r: Result<Supplier, SupplierRejection>)
    ensures r.Err? <==> s.primaryTeam.Some?
    ensures r.Err? ==> r.error == AlreadyHasPrimaryTeam
    ensures r.Ok? ==> r.value.primaryTeam == Some(teamId) && r.value.status == Active
    ensures r.Ok? ==> r.value.(primaryTeam := s.primaryTeam, status := s.status) == s
    ensures r.Ok? && SharingValid(s) && teamId !in s.sharedWithTeams ==> SharingValid(r.value)
  {
    if s.primaryTeam.Some? then Err(AlreadyHasPrimaryTeam)
    else Ok(s.(primaryTeam := Some(teamId), status := Active))
  }

  /** The claim check misses one case, and the other handlers reach it: once a
      supplier is removed from its teams, any team can be shared with it and then
      claim it, and the primary team is then in the shared list. */
  lemma {:induction false} RemoveShareClaimBreaksSharing(s: Supplier, teamId: Id)
    ensures Share(Remove(s), teamId).Ok?
    ensures Claim(Share(Remove(s), teamId).value, teamId).Ok?
    ensures !SharingValid(Claim(Share(Remove(s), teamId).value, teamId).value)
  {
  }

  /** The claim with the missing case handled: the claiming team leaves the shared
      list as it becomes the primary team. */
  function ClaimDroppingShare(s: Supplier, teamId: Id): (r: Result<Supplier, SupplierRejection>)
    ensures r.Err? <==> s.primaryTeam.Some?
    ensures r.Ok? ==> r.value.primaryTeam == Some(teamId) && r.value.status == Active
    ensures r.Ok? ==> r.value.(primaryTeam := s.primaryTeam, status := s.status, sharedWithTeams := s.sharedWithTeams) == s
    ensures r.Ok? ==> IsSubsequence(r.value.sharedWithTeams, s.sharedWithTeams)
    ensures r.Ok? ==> forall t :: multiset(r.value.sharedWithTeams)[t] == if t == teamId then 0 else multiset(s.sharedWithTeams)[t]
    ensures r.Ok? ==> forall t :: t in r.value.sharedWithTeams <==> t in s.sharedWithTeams && t != teamId
    ensures r.Ok? && SharingValid(s) ==> SharingValid(r.value)
  {
    if s.primaryTeam.Some? then Err(AlreadyHasPrimaryTeam)
    else
      var shared := Filter(s.sharedWithTeams, t => t != teamId);
      FilterKeepsNoDuplicates(s.sharedWithTeams, t => t != teamId);
      FilterCounts(s.sharedWithTeams, t => t != teamId);
      Ok(s.(primaryTeam := Some(teamId), status := Active, sharedWithTeams := shared))
  }

  /** ShareSupplierWithTeamCommand: the primary team and a team already shared with
      are refused; otherwise the team is appended to the shared list. */
  function Share(s: Supplier, teamId: Id): (r: Result<Supplier, SupplierRejection>)
    ensures s.primaryTeam == Some(teamId) ==> r == Err(CannotShareWithPrimaryTeam)
    ensures s.primaryTeam != Some(teamId) && teamId in s.sharedWithTeams ==> r == Err(AlreadyShared)
    ensures r.Ok? <==> s.primaryTeam != Some(teamId) && teamId !in s.sharedWithTeams
    ensures r.Ok? ==> r.value == s.(sharedWithTeams := s.sharedWithTeams + [teamId])
    ensures r.Ok? && SharingValid(s) ==> SharingValid(r.value)
  {
    if s.primaryTeam == Some(teamId) then Err(CannotShareWithPrimaryTeam)
    else if teamId in s.sharedWithTeams then Err(AlreadyShared)
    else Ok(s.(sharedWithTeams := s.sharedWithTeams + [teamId]))
  }

  /** UnshareSupplierWithTeamCommand: the primary team and a team not shared with are
      refused; otherwise exactly that team leaves the shared list, the others keep
      their order. */
  function Unshare(s: Supplier, teamId: Id): (r: Result<Supplier, SupplierRejection>)
    ensures s.primaryTeam == Some(teamId) ==> r == Err(CannotRemovePrimaryTeam)
    ensures s.primaryTeam != Some(teamId) && teamId !in s.sharedWithTeams ==> r == Err(NotShared)
    ensures r.Ok? <==> s.primaryTeam != Some(teamId) && teamId in s.sharedWithTeams
    ensures r.Ok? ==> IsSubsequence(r.value.sharedWithTeams, s.sharedWithTeams)
    ensures r.Ok? ==> forall t :: multiset(r.value.sharedWithTeams)[t] == if t == teamId then 0 else multiset(s.sharedWithTeams)[t]
    ensures r.Ok? ==> forall t :: t in r.value.sharedWithTeams <==> t in s.sharedWithTeams && t != teamId
    ensures r.Ok? ==> r.value.(sharedWithTeams := s.sharedWithTeams) == s
    ensures r.Ok? && SharingValid(s) ==> SharingValid(r.value)
  {
    if s.primaryTeam == Some(teamId) then Err(CannotRemovePrimaryTeam)
    else if teamId !in s.sharedWithTeams then Err(NotShared)
    else
      var shared := Filter(s.sharedWithTeams, t => t != teamId);
      FilterKeepsNoDuplicates(s.sharedWithTeams, t => t != teamId);
      FilterCounts(s.sharedWithTeams, t => t != teamId);
      Ok(s.(sharedWithTeams := shared))
  }

  /** Sharing with a team and then unsharing it gives the supplier back unchanged. */
  lemma {:induction false} UnshareUndoesShare(s: Supplier, teamId: Id)
    requires Share(s, teamId).Ok?
    ensures Unshare(Share(s, teamId).value, teamId) == Ok(s)
  {
    var shared := s.sharedWithTeams + [teamId];
    FilterDropsAbsentAndLast(s.sharedWithTeams, teamId);
    assert Filter(shared, t => t != teamId) == s.sharedWithTeams;
  }

  lemma {:induction false} FilterDropsAbsentAndLast(s: seq<Id>, teamId: Id)
    requires teamId !in s
    ensures Filter(s + [teamId], t => t != teamId) == s
  {
    if s == [] {
      assert [teamId][1..] == [];
    } else {
      assert (s + [teamId])[1..] == s[1..] + [teamId];
      FilterDropsAbsentAndLast(s[1..], teamId);
      assert [s[0]] + s[1..] == s;
    }
  }

  /** RemoveSupplierCommand: the supplier loses its primary team and all sharing. */
  function Remove(s: Supplier): (r: Supplier)
    ensures r.primaryTeam.None? && r.sharedWithTeams == []
    ensures r.status == s.status && r.legalName == s.legalName && r.gstNumber == s.gstNumber
    ensures SharingValid(r)
  {
    s.(primaryTeam := None, sharedWithTeams := [])
  }
}
