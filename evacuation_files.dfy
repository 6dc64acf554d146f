/** Evacuation files, their household members, and the post-processing the evacuee
    search applies to what the search engine found: marking the member that caused
    a match, the restricted-access blackout and the status filter. */
module EvacuationFiles {
  import opened Common
  import opened Registrants

  /** An evacuation file status, represented by its name. */
  type FileStatus = string

  datatype HouseholdMember = HouseholdMember(
    id: Id,
    isPrimaryRegistrant: bool,
    linkedRegistrantId: Option<Id>,
    isSearchMatch: bool)

  datatype EvacuationFile = EvacuationFile(
    id: Option<Id>,
    primaryRegistrantId: Id,
    status: FileStatus,
    restrictedAccess: bool,
    securityPhrase: Option<string>,
    householdMembers: seq<HouseholdMember>)

  datatype Note = Note(id: Option<Id>, content: string, creatingTeamMemberId: Option<Id>)

  // ---------------------------------------------------------------------------
  // Anonymous submission: linking the primary registrant

  predicate IsPrimary(m: HouseholdMember)
  {
    m.isPrimaryRegistrant
  }

  /** How many household members are marked as the primary registrant. */
  function PrimaryRegistrantCount(members: seq<HouseholdMember>): nat
  {
    CountWhere(members, IsPrimary)
  }

  /** The household after SubmitAnonymousEvacuationFileCommand links the primary
      registrant to the contact just saved: the primary member gets the link, no
      other member and no other field changes. */
  function LinkPrimaryRegistrant(members: seq<HouseholdMember>, registrantId: Id): (r: seq<HouseholdMember>)
    ensures |r| == |members|
    ensures forall i :: 0 <= i < |r| ==> r[i].(linkedRegistrantId := members[i].linkedRegistrantId) == members[i]
    ensures forall i :: 0 <= i < |r| && members[i].isPrimaryRegistrant ==> r[i].linkedRegistrantId == Some(registrantId)
    ensures forall i :: 0 <= i < |r| && !members[i].isPrimaryRegistrant ==> r[i] == members[i]
  {
    Select(members, (m: HouseholdMember) => if m.isPrimaryRegistrant then m.(linkedRegistrantId := Some(registrantId)) else m)
  }

  /** Linking leaves the number of primary registrants as it was, so a file with
      exactly one keeps exactly one, and that one is linked. */
  lemma {:induction false} LinkKeepsPrimaryRegistrant(members: seq<HouseholdMember>, registrantId: Id)
    ensures PrimaryRegistrantCount(LinkPrimaryRegistrant(members, registrantId)) == PrimaryRegistrantCount(members)
    ensures forall m :: m in LinkPrimaryRegistrant(members, registrantId) && m.isPrimaryRegistrant ==>
              m.linkedRegistrantId == Some(registrantId)
  {
    var linked := LinkPrimaryRegistrant(members, registrantId);
    if members != [] {
      LinkKeepsPrimaryRegistrant(members[1..], registrantId);
      assert linked[1..] == LinkPrimaryRegistrant(members[1..], registrantId);
    }
  }

  // ---------------------------------------------------------------------------
  // Search results

  datatype FileSearchResult = FileSearchResult(
    id: Option<Id>,
    status: FileStatus,
    restrictedAccess: bool,
    householdMembers: seq<HouseholdMember>)

  datatype ProfileSearchResult = ProfileSearchResult(
    id: Id,
    restrictedAccess: bool,
    recentFiles: seq<FileSearchResult>)

  datatype SearchResponse = SearchResponse(profiles: seq<ProfileSearchResult>, files: seq<FileSearchResult>)

  function ToSearchResult(f: EvacuationFile): FileSearchResult
  {
    FileSearchResult(f.id, f.status, f.restrictedAccess, f.householdMembers)
  }

  /** The files of a registrant (the case query by primary registrant id). */
  function FilesOf(files: seq<EvacuationFile>, registrantId: Id): (r: seq<EvacuationFile>)
    ensures forall f :: f in r <==> f in files && f.primaryRegistrantId == registrantId
  {
    Filter(files, (f: EvacuationFile) => f.primaryRegistrantId == registrantId)
  }

  predicate HasMember(f: EvacuationFile, memberId: Id)
  {
    exists m :: m in f.householdMembers && m.id == memberId
  }

  /** The files with a given household member (the case query by household member id). */
  function FilesWithMember(files: seq<EvacuationFile>, memberId: Id): (r: seq<EvacuationFile>)
    ensures forall f :: f in r <==> f in files && HasMember(f, memberId)
  {
    Filter(files, (f: EvacuationFile) => HasMember(f, memberId))
  }

  /** A matching registrant's profile result, with all of the registrant's files. */
  function ProfileResult(c: Contact, registrantId: Id, files: seq<EvacuationFile>): (r: ProfileSearchResult)
    ensures r.id == registrantId && r.restrictedAccess == c.restrictedAccess
    ensures |r.recentFiles| == |FilesOf(files, registrantId)|
    ensures forall f :: f in r.recentFiles ==> exists g :: g in files && g.primaryRegistrantId == registrantId && f == ToSearchResult(g)
  {
    var owned := FilesOf(files, registrantId);
    var results := Select(owned, ToSearchResult);
    assert forall f :: f in results ==> exists i :: 0 <= i < |owned| && f == ToSearchResult(owned[i]);
    ProfileSearchResult(registrantId, c.restrictedAccess, results)
  }

  /** Every file the registrant owns is among the profile's recent files. */
  lemma ProfileListsOwnedFiles(c: Contact, registrantId: Id, files: seq<EvacuationFile>)
    ensures forall g :: g in files && g.primaryRegistrantId == registrantId ==>
              ToSearchResult(g) in ProfileResult(c, registrantId, files).recentFiles
  {
    var owned := FilesOf(files, registrantId);
    forall g | g in files && g.primaryRegistrantId == registrantId
      ensures ToSearchResult(g) in ProfileResult(c, registrantId, files).recentFiles
    {
      var i :| 0 <= i < |owned| && owned[i] == g;
      assert ProfileResult(c, registrantId, files).recentFiles[i] == ToSearchResult(g);
    }
  }

  /** The household after the members that caused a match are marked: the flag is
      set on exactly the members with the matched id and kept on the others, and
      nothing else changes. */
  function MarkSearchMatch(members: seq<HouseholdMember>, matchedId: Id): (r: seq<HouseholdMember>)
    ensures |r| == |members|
    ensures forall i :: 0 <= i < |r| ==> r[i].(isSearchMatch := members[i].isSearchMatch) == members[i]
    ensures forall i :: 0 <= i < |r| && members[i].id == matchedId ==> r[i].isSearchMatch
    ensures forall i :: 0 <= i < |r| && members[i].id != matchedId ==> r[i].isSearchMatch == members[i].isSearchMatch
  {
    Select(members, (m: HouseholdMember) => if m.id == matchedId then m.(isSearchMatch := true) else m)
  }

  /** Marking twice with the same id is marking once. */
  lemma MarkSearchMatchIdempotent(members: seq<HouseholdMember>, matchedId: Id)
    ensures MarkSearchMatch(MarkSearchMatch(members, matchedId), matchedId) == MarkSearchMatch(members, matchedId)
  {
  }

  /** The household a search marks, in place, member by member. */
  method MarkSearchMatches(members: array<HouseholdMember>, matchedId: Id)
    modifies members
    ensures members[..] == MarkSearchMatch(old(members[..]), matchedId)
  {
    ghost var marked := MarkSearchMatch(members[..], matchedId);
    var i := 0;
    while i < members.Length
      invariant 0 <= i <= members.Length
      invariant forall k :: 0 <= k < i ==> members[k] == marked[k]
      invariant forall k :: i <= k < members.Length ==> members[k] == old(members[k])
    {
      if members[i].id == matchedId {
        members[i] := members[i].(isSearchMatch := true);
      }
      i := i + 1;
    }
  }

  /** A matched file's search result, with the matching member marked. */
  function MatchedFile(f: EvacuationFile, memberId: Id): (r: FileSearchResult)
    ensures r.(householdMembers := f.householdMembers) == ToSearchResult(f)
    ensures r.householdMembers == MarkSearchMatch(f.householdMembers, memberId)
    ensures HasMember(f, memberId) ==> exists m :: m in r.householdMembers && m.id == memberId && m.isSearchMatch
  {
    var marked := MarkSearchMatch(f.householdMembers, memberId);
    assert forall i :: 0 <= i < |marked| ==> marked[i] in marked;
    ToSearchResult(f).(householdMembers := marked)
  }

  // ---------------------------------------------------------------------------
  // Post-processing

  predicate ProfileRestricted(p: ProfileSearchResult)
  {
    p.restrictedAccess || exists f :: f in p.recentFiles && f.restrictedAccess
  }

  /** Some profile, some recent file of a profile, or some matched file is restricted. */
  predicate AnyRestricted(profiles: seq<ProfileSearchResult>, files: seq<FileSearchResult>)
  {
    (exists p :: p in profiles && ProfileRestricted(p)) || (exists f :: f in files && f.restrictedAccess)
  }

  /** The files whose status is listed, in order. */
  function KeepStatuses(files: seq<FileSearchResult>, statuses: seq<FileStatus>): (r: seq<FileSearchResult>)
    ensures IsSubsequence(r, files)
    ensures forall f :: f in r <==> f in files && f.status in statuses
  {
    Filter(files, (f: FileSearchResult) => f.status in statuses)
  }

  /** The status filter keeps each file in a listed status as often as it was found,
      and no other file. */
  lemma KeepStatusesCounts(files: seq<FileSearchResult>, statuses: seq<FileStatus>)
    ensures forall f :: multiset(KeepStatuses(files, statuses))[f] == if f.status in statuses then multiset(files)[f] else 0
  {
    FilterCounts(files, (f: FileSearchResult) => f.status in statuses);
  }

  /** `n` is profile `p` with its recent files narrowed to the listed statuses: the
      same registrant, and the files in a listed status in their order, each as
      often as before. */
  ghost predicate RecentFilesNarrowed(n: ProfileSearchResult, p: ProfileSearchResult, statuses: seq<FileStatus>)
  {
    n.id == p.id && n.restrictedAccess == p.restrictedAccess &&
    IsSubsequence(n.recentFiles, p.recentFiles) &&
    (forall f :: f in n.recentFiles <==> f in p.recentFiles && f.status in statuses) &&
    forall f :: multiset(n.recentFiles)[f] == if f.status in statuses then multiset(p.recentFiles)[f] else 0
  }

  /** Every profile with its recent files narrowed to the listed statuses. */
  function ProfilesKeepingStatuses(profiles: seq<ProfileSearchResult>, statuses: seq<FileStatus>): (r: seq<ProfileSearchResult>)
    ensures |r| == |profiles|
  {
    Select(profiles, (p: ProfileSearchResult) => p.(recentFiles := KeepStatuses(p.recentFiles, statuses)))
  }

  /** Narrowing keeps every profile, in order, and narrows each one's recent files. */
  lemma ProfilesKeepingStatusesNarrows(profiles: seq<ProfileSearchResult>, statuses: seq<FileStatus>)
    ensures forall i :: 0 <= i < |profiles| ==>
              RecentFilesNarrowed(ProfilesKeepingStatuses(profiles, statuses)[i], profiles[i], statuses)
  {
    forall i | 0 <= i < |profiles|
      ensures RecentFilesNarrowed(ProfilesKeepingStatuses(profiles, statuses)[i], profiles[i], statuses)
    {
      KeepStatusesCounts(profiles[i].recentFiles, statuses);
    }
  }

  /** The profiles' recent files narrowed in place, profile by profile. */
  method KeepRecentFilesInStatuses(profiles: array<ProfileSearchResult>, statuses: seq<FileStatus>)
    modifies profiles
    ensures profiles[..] == ProfilesKeepingStatuses(old(profiles[..]), statuses)
  {
    ghost var narrowed := ProfilesKeepingStatuses(profiles[..], statuses);
    var i := 0;
    while i < profiles.Length
      invariant 0 <= i <= profiles.Length
      invariant forall k :: 0 <= k < i ==> profiles[k] == narrowed[k]
      invariant forall k :: i <= k < profiles.Length ==> profiles[k] == old(profiles[k])
    {
      assert narrowed[i] == profiles[i].(recentFiles := KeepStatuses(profiles[i].recentFiles, statuses));
      profiles[i] := profiles[i].(recentFiles := KeepStatuses(profiles[i].recentFiles, statuses));
      i := i + 1;
    }
  }

  /** What EvacueeSearchQuery does with the looked-up profiles and matched files: an
      empty response when restricted access was not asked for and anything found is
      restricted; otherwise, with statuses listed, only files in those statuses. */
  function PostProcess(profiles: seq<ProfileSearchResult>, files: seq<FileSearchResult>,
                       includeRestricted: bool, inStatuses: seq<FileStatus>): SearchResponse
  {
    if !includeRestricted && AnyRestricted(profiles, files) then SearchResponse([], [])
    else if inStatuses == [] then SearchResponse(profiles, files)
    else SearchResponse(ProfilesKeepingStatuses(profiles, inStatuses), KeepStatuses(files, inStatuses))
  }

  /** The post-processing as the handler does it, narrowing the profiles' recent
      files in place. */
  method PostProcessResults(profiles: seq<ProfileSearchResult>, files: seq<FileSearchResult>,
                            includeRestricted: bool, inStatuses: seq<FileStatus>) returns (r: SearchResponse)
    ensures r == PostProcess(profiles, files, includeRestricted, inStatuses)
  {
    if !includeRestricted && AnyRestricted(profiles, files) {
      return SearchResponse([], []);
    }
    var kept := files;
    var narrowed := profiles;
    if inStatuses != [] {
      var results := new ProfileSearchResult[|profiles|](k requires 0 <= k < |profiles| => profiles[k]);
      assert results[..] == profiles;
      KeepRecentFilesInStatuses(results, inStatuses);
      narrowed := results[..];
      kept := KeepStatuses(files, inStatuses);
    }
    r := SearchResponse(narrowed, kept);
  }

  /** Without restricted access nothing restricted is returned: a restricted profile,
      recent file or matched file empties the whole response, and otherwise all
      profiles are returned. */
  lemma BlackoutHidesRestricted(profiles: seq<ProfileSearchResult>, files: seq<FileSearchResult>, inStatuses: seq<FileStatus>)
    ensures AnyRestricted(profiles, files) ==> PostProcess(profiles, files, false, inStatuses) == SearchResponse([], [])
    ensures !AnyRestricted(PostProcess(profiles, files, false, inStatuses).profiles,
                           PostProcess(profiles, files, false, inStatuses).files)
    ensures !AnyRestricted(profiles, files) ==> |PostProcess(profiles, files, false, inStatuses).profiles| == |profiles|
  {
    var r := PostProcess(profiles, files, false, inStatuses);
    if !AnyRestricted(profiles, files) && inStatuses != [] {
      forall p | p in r.profiles ensures !ProfileRestricted(p) {
        var i :| 0 <= i < |r.profiles| && r.profiles[i] == p;
        assert !ProfileRestricted(profiles[i]) by {
          assert profiles[i] in profiles;
        }
      }
    }
  }

  /** With statuses listed, every returned file, recent or matched, is in a listed
      status; files in a listed status are kept, in order; no profile is dropped. */
  lemma StatusFilterKeepsListed(profiles: seq<ProfileSearchResult>, files: seq<FileSearchResult>,
                                includeRestricted: bool, inStatuses: seq<FileStatus>)
    requires inStatuses != []
    ensures forall p, f :: p in PostProcess(profiles, files, includeRestricted, inStatuses).profiles && f in p.recentFiles
              ==> f.status in inStatuses
    ensures forall f :: f in PostProcess(profiles, files, includeRestricted, inStatuses).files ==> f.status in inStatuses
    ensures includeRestricted || !AnyRestricted(profiles, files) ==>
              var r := PostProcess(profiles, files, includeRestricted, inStatuses);
              |r.profiles| == |profiles| && IsSubsequence(r.files, files) &&
              (forall f :: f in r.files <==> f in files && f.status in inStatuses) &&
              (forall f :: multiset(r.files)[f] == if f.status in inStatuses then multiset(files)[f] else 0) &&
              forall i :: 0 <= i < |profiles| ==> RecentFilesNarrowed(r.profiles[i], profiles[i], inStatuses)
  {
    var r := PostProcess(profiles, files, includeRestricted, inStatuses);
    ProfilesKeepingStatusesNarrows(profiles, inStatuses);
    KeepStatusesCounts(files, inStatuses);
    forall p, f | p in r.profiles && f in p.recentFiles ensures f.status in inStatuses {
      var i :| 0 <= i < |r.profiles| && r.profiles[i] == p;
    }
  }
}
