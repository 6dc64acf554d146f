/** SubmissionsManager's handlers over an in-memory stand-in for the contact and
    case repositories. What the handlers ask the repositories to store is recorded,
    in order, as a log of writes, and the e-mails they decide to send as a log of
    notifications. */
module Submissions {
  import opened Common
  import opened Registrants
  import opened EvacuationFiles

  /** The exceptions the handlers throw. */
  datatype SubmissionError =
    | TooManySecurityQuestions(count: nat)
    | RegistrantNotFound(registrantId: Id)
    | FileNotFound(fileId: Id)
    | NotExactlyOnePrimaryRegistrant(count: nat)   // Single() over the primary registrants
    | ArgumentNull(parameter: string)
    | SearchLookupFailed                           // Single() over a search hit's lookup

  /** A request to the contact or case repository. */
  datatype StoreWrite =
    | SaveContact(contact: Contact)
    | UpdateSecurityQuestions(contactId: Id, questions: seq<SecurityQuestion>)
    | SaveEvacuationFile(file: EvacuationFile)
    | UpdateSecurityPhrase(fileId: Id, securityPhrase: Option<string>)
    | SaveNote(noteFileId: Option<Id>, note: Note)

  datatype Template = NewEvacuationFileSubmission | NewAnonymousEvacuationFileSubmission | NewProfileRegistration

  /** An e-mail: its template, the address and name it goes to, and the file number
      token when the template has one. */
  datatype Notification = Notification(template: Template, email: string, name: string, fileNumber: Option<Id>)

  // ---------------------------------------------------------------------------
  // The decisions the handlers take

  /** The writes SaveRegistrantCommand issues for a profile with at most three
      questions: the contact, then the changed answers when there are any. */
  function RegistrantWrites(profile: Contact, contactId: Id): (w: seq<StoreWrite>)
    ensures 1 <= |w| <= 2 && w[0] == SaveContact(profile)
    ensures |w| == 2 <==> exists q :: q in profile.securityQuestions && q.answerChanged
    ensures |w| == 2 ==>
              w[1].UpdateSecurityQuestions? && w[1].contactId == contactId &&
              ChangedQuestionsOf(w[1].questions, profile.securityQuestions)
  {
    var changed := ChangedQuestions(profile.securityQuestions);
    [SaveContact(profile)] + if changed == [] then [] else [UpdateSecurityQuestions(contactId, changed)]
  }

  /** The welcome e-mail: only for a profile without an id (a new registrant) that
      has an e-mail address. */
  function WelcomeNotice(profile: Contact): (n: seq<Notification>)
    ensures |n| <= 1
    ensures n != [] <==> IsNullOrEmpty(profile.id) && profile.email.Some?
    ensures n != [] ==> n[0].template == NewProfileRegistration && n[0].email == profile.email.value &&
                        n[0].name == AddresseeName(profile) && n[0].fileNumber.None?
  {
    if IsNullOrEmpty(profile.id) && profile.email.Some? then
      [Notification(NewProfileRegistration, profile.email.value, AddresseeName(profile), None)]
    else []
  }

  /** The e-mail SubmitEvacuationFileCommand sends: only for a file without an id (a
      new file) whose registrant has a non-empty e-mail address. */
  function NewFileNotice(fileId: Option<Id>, registrant: Contact, caseId: Id): (n: seq<Notification>)
    ensures |n| <= 1
    ensures n != [] <==> IsNullOrEmpty(fileId) && !IsNullOrEmpty(registrant.email)
    ensures n != [] ==> n[0].template == NewEvacuationFileSubmission && n[0].email == registrant.email.value &&
                        n[0].email != "" && n[0].name == AddresseeName(registrant) && n[0].fileNumber == Some(caseId)
  {
    if IsNullOrEmpty(fileId) && !IsNullOrEmpty(registrant.email) then
      [Notification(NewEvacuationFileSubmission, registrant.email.value, AddresseeName(registrant), Some(caseId))]
    else []
  }

  /** The e-mail SubmitAnonymousEvacuationFileCommand sends: whenever the submitter
      gave an e-mail address (an empty one included). */
  function AnonymousFileNotice(submitter: Contact, caseId: Id): (n: seq<Notification>)
    ensures |n| <= 1
    ensures n != [] <==> submitter.email.Some?
    ensures n != [] ==> n[0].template == NewAnonymousEvacuationFileSubmission && n[0].email == submitter.email.value &&
                        n[0].name == AddresseeName(submitter) && n[0].fileNumber == Some(caseId)
  {
    if submitter.email.Some? then
      [Notification(NewAnonymousEvacuationFileSubmission, submitter.email.value, AddresseeName(submitter), Some(caseId))]
    else []
  }

  /** An update of an existing record never sends an e-mail. */
  lemma NoNoticeForExistingRecords(profile: Contact, file: EvacuationFile, registrant: Contact, caseId: Id)
    requires !IsNullOrEmpty(profile.id) && !IsNullOrEmpty(file.id)
    ensures WelcomeNotice(profile) == [] && NewFileNotice(file.id, registrant, caseId) == []
  {
  }

  /** The file SubmitAnonymousEvacuationFileCommand stores: owned by the contact just
      saved, with its primary household member linked to it. */
  function AnonymousFile(file: EvacuationFile, contactId: Id): (r: EvacuationFile)
    ensures r.primaryRegistrantId == contactId
    ensures r.(primaryRegistrantId := file.primaryRegistrantId, householdMembers := file.householdMembers) == file
    ensures r.householdMembers == LinkPrimaryRegistrant(file.householdMembers, contactId)
    ensures PrimaryRegistrantCount(r.householdMembers) == PrimaryRegistrantCount(file.householdMembers)
    ensures forall m :: m in r.householdMembers && m.isPrimaryRegistrant ==> m.linkedRegistrantId == Some(contactId)
  {
    LinkKeepsPrimaryRegistrant(file.householdMembers, contactId);
    file.(primaryRegistrantId := contactId, householdMembers := LinkPrimaryRegistrant(file.householdMembers, contactId))
  }

  // ---------------------------------------------------------------------------
  // Evacuee search

  datatype SearchQuery = SearchQuery(
    firstName: Option<string>,
    lastName: Option<string>,
    dateOfBirth: Option<string>,
    includeRestrictedAccess: bool,
    inStatuses: seq<FileStatus>)

  /** What the search engine found: matching registrants and matching household members. */
  datatype SearchHits = SearchHits(registrantIds: seq<Id>, householdMemberIds: seq<Id>)

  /** Every hit's lookup finds exactly one record: the contact of each registrant,
      and the one file holding each household member. */
  predicate LookupsSucceed(contacts: map<Id, Contact>, files: seq<EvacuationFile>, hits: SearchHits)
  {
    (forall id :: id in hits.registrantIds ==> id in contacts) &&
    (forall id :: id in hits.householdMemberIds ==> |FilesWithMember(files, id)| == 1)
  }

  /** `p` is the result for registrant `id` with contact `c`: its id, its contact's
      restriction, and one recent file per file the registrant owns. */
  ghost predicate ProfileOf(p: ProfileSearchResult, c: Contact, id: Id, files: seq<EvacuationFile>)
  {
    p.id == id && p.restrictedAccess == c.restrictedAccess && |p.recentFiles| == |FilesOf(files, id)| &&
    forall g :: g in files && g.primaryRegistrantId == id ==> ToSearchResult(g) in p.recentFiles
  }

  /** The profile of every matching registrant, in hit order. */
  function ProfileResults(contacts: map<Id, Contact>, files: seq<EvacuationFile>, ids: seq<Id>): (r: seq<ProfileSearchResult>)
    requires forall id :: id in ids ==> id in contacts
    ensures |r| == |ids|
  {
    seq(|ids|, i requires 0 <= i < |ids| => ProfileResult(contacts[ids[i]], ids[i], files))
  }

  lemma ProfileResultsExtend(contacts: map<Id, Contact>, files: seq<EvacuationFile>, ids: seq<Id>, id: Id)
    requires forall k :: k in ids ==> k in contacts
    requires id in contacts
    ensures ProfileResults(contacts, files, ids + [id]) ==
            ProfileResults(contacts, files, ids) + [ProfileResult(contacts[id], id, files)]
  {
    var longer := ProfileResults(contacts, files, ids + [id]);
    var shorter := ProfileResults(contacts, files, ids);
    forall k | 0 <= k < |ids| ensures longer[k] == shorter[k] {
      assert (ids + [id])[k] == ids[k];
    }
  }

  /** Every profile result belongs to its hit. */
  lemma ProfileResultsFollowHits(contacts: map<Id, Contact>, files: seq<EvacuationFile>, ids: seq<Id>)
    requires forall id :: id in ids ==> id in contacts
    ensures forall i :: 0 <= i < |ids| ==> ProfileOf(ProfileResults(contacts, files, ids)[i], contacts[ids[i]], ids[i], files)
  {
    forall i | 0 <= i < |ids|
      ensures ProfileOf(ProfileResults(contacts, files, ids)[i], contacts[ids[i]], ids[i], files)
    {
      ProfileListsOwnedFiles(contacts[ids[i]], ids[i], files);
    }
  }

  /** `r` is the result for a stored file holding household member `id`, with that
      member marked as the match and nothing else changed. */
  ghost predicate MatchOf(r: FileSearchResult, files: seq<EvacuationFile>, id: Id)
  {
    (exists f :: f in files && HasMember(f, id) && r.(householdMembers := f.householdMembers) == ToSearchResult(f) &&
                 r.householdMembers == MarkSearchMatch(f.householdMembers, id)) &&
    exists m :: m in r.householdMembers && m.id == id && m.isSearchMatch
  }

  /** The file of every matching household member, in hit order: a stored file that
      holds the member, with that member marked. */
  function MatchedFiles(files: seq<EvacuationFile>, ids: seq<Id>): (r: seq<FileSearchResult>)
    requires forall id :: id in ids ==> |FilesWithMember(files, id)| == 1
    ensures |r| == |ids|
  {
    seq(|ids|, i requires 0 <= i < |ids| => MatchedFile(FilesWithMember(files, ids[i])[0], ids[i]))
  }

  /** Every matched file holds its hit's household member, marked. */
  lemma MatchedFilesFollowHits(files: seq<EvacuationFile>, ids: seq<Id>)
    requires forall id :: id in ids ==> |FilesWithMember(files, id)| == 1
    ensures forall i :: 0 <= i < |ids| ==> MatchOf(MatchedFiles(files, ids)[i], files, ids[i])
  {
    forall i | 0 <= i < |ids| ensures MatchOf(MatchedFiles(files, ids)[i], files, ids[i]) {
      var f := FilesWithMember(files, ids[i])[0];
      assert f in FilesWithMember(files, ids[i]);
    }
  }

  /** EvacueeSearchQuery's outcome: the argument checks in order, a failed lookup,
      or the post-processed results. Without restricted access nothing restricted
      is returned, and with statuses listed only files in those statuses. */
  function EvacueeSearchOutcome(contacts: map<Id, Contact>, files: seq<EvacuationFile>, q: SearchQuery,
                                hits: SearchHits): (r: Result<SearchResponse, SubmissionError>)
    ensures r.Err? <==> IsNullOrWhiteSpace(q.firstName) || IsNullOrWhiteSpace(q.lastName) ||
                        IsNullOrWhiteSpace(q.dateOfBirth) || !LookupsSucceed(contacts, files, hits)
    ensures IsNullOrWhiteSpace(q.firstName) ==> r == Err(ArgumentNull("FirstName"))
    ensures !IsNullOrWhiteSpace(q.firstName) && IsNullOrWhiteSpace(q.lastName) ==> r == Err(ArgumentNull("LastName"))
    ensures !IsNullOrWhiteSpace(q.firstName) && !IsNullOrWhiteSpace(q.lastName) && IsNullOrWhiteSpace(q.dateOfBirth) ==>
              r == Err(ArgumentNull("DateOfBirth"))
    ensures (!IsNullOrWhiteSpace(q.firstName) && !IsNullOrWhiteSpace(q.lastName) && !IsNullOrWhiteSpace(q.dateOfBirth) &&
             !LookupsSucceed(contacts, files, hits)) ==> r == Err(SearchLookupFailed)
    ensures r.Ok? ==>
              var profiles := ProfileResults(contacts, files, hits.registrantIds);
              var matched := MatchedFiles(files, hits.householdMemberIds);
              (!q.includeRestrictedAccess && AnyRestricted(profiles, matched) ==> r.value == SearchResponse([], [])) &&
              (q.includeRestrictedAccess || !AnyRestricted(profiles, matched) ==>
                 |r.value.profiles| == |hits.registrantIds| &&
                 (forall i :: 0 <= i < |hits.registrantIds| ==> r.value.profiles[i].id == hits.registrantIds[i]) &&
                 (forall f :: f in r.value.files <==> f in matched && (q.inStatuses == [] || f.status in q.inStatuses)) &&
                 (q.inStatuses == [] ==> r.value == SearchResponse(profiles, matched)))
    ensures r.Ok? && !q.includeRestrictedAccess ==> !AnyRestricted(r.value.profiles, r.value.files)
    ensures r.Ok? && q.inStatuses != [] ==>
              (forall f :: f in r.value.files ==> f.status in q.inStatuses) &&
              forall p, f :: p in r.value.profiles && f in p.recentFiles ==> f.status in q.inStatuses
  {
    if IsNullOrWhiteSpace(q.firstName) then Err(ArgumentNull("FirstName"))
    else if IsNullOrWhiteSpace(q.lastName) then Err(ArgumentNull("LastName"))
    else if IsNullOrWhiteSpace(q.dateOfBirth) then Err(ArgumentNull("DateOfBirth"))
    else if !LookupsSucceed(contacts, files, hits) then Err(SearchLookupFailed)
    else
      var profiles := ProfileResults(contacts, files, hits.registrantIds);
      var matched := MatchedFiles(files, hits.householdMemberIds);
      BlackoutHidesRestricted(profiles, matched, q.inStatuses);
      if q.inStatuses == [] then Ok(PostProcess(profiles, matched, q.includeRestrictedAccess, q.inStatuses))
      else
        StatusFilterKeepsListed(profiles, matched, q.includeRestrictedAccess, q.inStatuses);
        Ok(PostProcess(profiles, matched, q.includeRestrictedAccess, q.inStatuses))
  }

  /** The first stored file with the id (the case query by file id, FirstOrDefault). */
  function FindFile(files: seq<EvacuationFile>, fileId: Id): (r: Option<EvacuationFile>)
    ensures r.None? <==> forall f :: f in files ==> f.id != Some(fileId)
    ensures r.Some? ==> r.value in files && r.value.id == Some(fileId)
    ensures r.Some? ==> exists i :: 0 <= i < |files| && files[i] == r.value && forall j :: 0 <= j < i ==> files[j].id != Some(fileId)
  {
    if files == [] then None
    else if files[0].id == Some(fileId) then Some(files[0])
    else
      var rest := FindFile(files[1..], fileId);
      assert forall f :: f in files <==> f == files[0] || f in files[1..];
      if rest.Some? then
        var i :| 0 <= i < |files[1..]| && files[1..][i] == rest.value && forall j :: 0 <= j < i ==> files[1..][j].id != Some(fileId);
        assert files[i + 1] == rest.value;
        rest
      else rest
  }

  class SubmissionsManager {
    var contacts: map<Id, Contact>
    var files: seq<EvacuationFile>
    var writes: seq<StoreWrite>
    var sent: seq<Notification>

    constructor (contacts: map<Id, Contact>, files: seq<EvacuationFile>)
      ensures this.contacts == contacts && this.files == files
      ensures writes == [] && sent == []
    {
      this.contacts := contacts;
      this.files := files;
      writes := [];
      sent := [];
    }

    /** SaveRegistrantCommand: more than three security questions are refused before
        anything is stored; otherwise the contact is saved, then the changed answers,
        and a new registrant with an e-mail address is welcomed. `contactId` is the
        id the repository answers with. */
    method SaveRegistrant(profile: Contact, contactId: Id) returns (r: Result<Id, SubmissionError>)
      modifies this
      ensures |profile.securityQuestions| > MaxSecurityQuestions ==>
                r == Err(TooManySecurityQuestions(|profile.securityQuestions|)) &&
                writes == old(writes) && sent == old(sent)
      ensures |profile.securityQuestions| <= MaxSecurityQuestions ==>
                r == Ok(contactId) &&
                writes == old(writes) + RegistrantWrites(profile, contactId) &&
                sent == old(sent) + WelcomeNotice(profile)
      ensures contacts == old(contacts) && files == old(files)
    {
      if |profile.securityQuestions| > MaxSecurityQuestions {
        return Err(TooManySecurityQuestions(|profile.securityQuestions|));
      }
      var issued := [SaveContact(profile)];
      var updated := ChangedQuestions(profile.securityQuestions);
      if |updated| > 0 {
        issued := issued + [UpdateSecurityQuestions(contactId, updated)];
      }
      assert issued == RegistrantWrites(profile, contactId);
      writes := writes + issued;
      if IsNullOrEmpty(profile.id) {
        if profile.email.Some? {
          sent := sent + [Notification(NewProfileRegistration, profile.email.value, AddresseeName(profile), None)];
        }
      }
      r := Ok(contactId);
    }

    /** SubmitEvacuationFileCommand: the primary registrant must exist; the file is
        saved, then its security phrase when it changed, and the registrant is told
        of a new file. `caseId` is the id the repository answers with. */
    method SubmitEvacuationFile(file: EvacuationFile, securityPhraseChanged: bool, caseId: Id)
      returns (r: Result<Id, SubmissionError>)
      modifies this
      ensures file.primaryRegistrantId !in contacts ==>
                r == Err(RegistrantNotFound(file.primaryRegistrantId)) && writes == old(writes) && sent == old(sent)
      ensures file.primaryRegistrantId in contacts ==>
                r == Ok(caseId) &&
                writes == old(writes) + [SaveEvacuationFile(file)] +
                          (if securityPhraseChanged then [UpdateSecurityPhrase(caseId, file.securityPhrase)] else []) &&
                sent == old(sent) + NewFileNotice(file.id, contacts[file.primaryRegistrantId], caseId)
      ensures contacts == old(contacts) && files == old(files)
    {
      if file.primaryRegistrantId !in contacts {
        return Err(RegistrantNotFound(file.primaryRegistrantId));
      }
      var contact := contacts[file.primaryRegistrantId];
      writes := writes + [SaveEvacuationFile(file)];
      if securityPhraseChanged {
        writes := writes + [UpdateSecurityPhrase(caseId, file.securityPhrase)];
      }
      if IsNullOrEmpty(file.id) && !IsNullOrEmpty(contact.email) {
        sent := sent + [Notification(NewEvacuationFileSubmission, contact.email.value, AddresseeName(contact), Some(caseId))];
      }
      r := Ok(caseId);
    }

    /** SubmitAnonymousEvacuationFileCommand: the submitter is saved as a contact
        first; the file must have exactly one primary registrant, who is linked to
        that contact, and the file is saved; a submitter with an e-mail address is
        told of it. `contactId` and `caseId` are the ids the repositories answer with. */
    method SubmitAnonymousEvacuationFile(file: EvacuationFile, submitter: Contact, contactId: Id, caseId: Id)
      returns (r: Result<Id, SubmissionError>)
      modifies this
      ensures PrimaryRegistrantCount(file.householdMembers) != 1 ==>
                r == Err(NotExactlyOnePrimaryRegistrant(PrimaryRegistrantCount(file.householdMembers))) &&
                writes == old(writes) + [SaveContact(submitter)] && sent == old(sent)
      ensures PrimaryRegistrantCount(file.householdMembers) == 1 ==>
                r == Ok(caseId) &&
                writes == old(writes) + [SaveContact(submitter), SaveEvacuationFile(AnonymousFile(file, contactId))] &&
                sent == old(sent) + AnonymousFileNotice(submitter, caseId)
      ensures contacts == old(contacts) && files == old(files)
    {
      writes := writes + [SaveContact(submitter)];
      var primaries := PrimaryRegistrantCount(file.householdMembers);
      if primaries != 1 {
        return Err(NotExactlyOnePrimaryRegistrant(primaries));
      }
      var stored := AnonymousFile(file, contactId);
      writes := writes + [SaveEvacuationFile(stored)];
      if submitter.email.Some? {
        sent := sent + [Notification(NewAnonymousEvacuationFileSubmission, submitter.email.value,
                                     AddresseeName(submitter), Some(caseId))];
      }
      r := Ok(caseId);
    }

    /** SaveEvacuationFileNoteCommand: a note needs its own id or the id of its file;
        `caseId` is the id the repository answers with. */
    method SaveEvacuationFileNote(fileId: Option<Id>, note: Note, caseId: Id) returns (r: Result<Id, SubmissionError>)
      modifies this
      ensures IsNullOrEmpty(note.id) && IsNullOrEmpty(fileId) ==>
                r == Err(ArgumentNull("NoteId and FileId")) && writes == old(writes)
      ensures !(IsNullOrEmpty(note.id) && IsNullOrEmpty(fileId)) ==>
                r == Ok(caseId) && writes == old(writes) + [SaveNote(fileId, note)]
      ensures contacts == old(contacts) && files == old(files) && sent == old(sent)
    {
      if IsNullOrEmpty(note.id) && IsNullOrEmpty(fileId) {
        return Err(ArgumentNull("NoteId and FileId"));
      }
      writes := writes + [SaveNote(fileId, note)];
      r := Ok(caseId);
    }

    /** EvacueeSearchQuery: checks its arguments, looks every hit up, marks the
        matching household members, then blanks or filters the results. */
    method EvacueeSearch(q: SearchQuery, hits: SearchHits) returns (r: Result<SearchResponse, SubmissionError>)
      ensures r == EvacueeSearchOutcome(contacts, files, q, hits)
    {
      if IsNullOrWhiteSpace(q.firstName) { return Err(ArgumentNull("FirstName")); }
      if IsNullOrWhiteSpace(q.lastName) { return Err(ArgumentNull("LastName")); }
      if IsNullOrWhiteSpace(q.dateOfBirth) { return Err(ArgumentNull("DateOfBirth")); }
      var profiles := LookUpProfiles(hits.registrantIds);
      if profiles.None? {
        return Err(SearchLookupFailed);
      }
      var matched := LookUpMatchedFiles(hits.householdMemberIds);
      if matched.None? {
        return Err(SearchLookupFailed);
      }
      var response := PostProcessResults(profiles.value, matched.value, q.includeRestrictedAccess, q.inStatuses);
      r := Ok(response);
    }

    /** The profile of every matching registrant, one lookup after the other; none
        when a registrant's contact is missing. */
    method LookUpProfiles(ids: seq<Id>) returns (r: Option<seq<ProfileSearchResult>>)
      ensures r.None? <==> exists id :: id in ids && id !in contacts
      ensures r.Some? ==> (forall id :: id in ids ==> id in contacts) && r.value == ProfileResults(contacts, files, ids)
    {
      var profiles: seq<ProfileSearchResult> := [];
      var i := 0;
      while i < |ids|
        invariant 0 <= i <= |ids|
        invariant forall k :: 0 <= k < i ==> ids[k] in contacts
        invariant profiles == ProfileResults(contacts, files, ids[..i])
      {
        var id := ids[i];
        if id !in contacts {
          return None;
        }
        var found := ProfileResult(contacts[id], id, files);
        assert ids[..i + 1] == ids[..i] + [id];
        ProfileResultsExtend(contacts, files, ids[..i], id);
        profiles := profiles + [found];
        i := i + 1;
      }
      assert ids[..i] == ids;
      r := Some(profiles);
    }

    /** The file of every matching household member, with that member marked, one
        lookup after the other; none when a member is not in exactly one file. */
    method LookUpMatchedFiles(ids: seq<Id>) returns (r: Option<seq<FileSearchResult>>)
      ensures r.None? <==> exists id :: id in ids && |FilesWithMember(files, id)| != 1
      ensures r.Some? ==> (forall id :: id in ids ==> |FilesWithMember(files, id)| == 1) && r.value == MatchedFiles(files, ids)
    {
      var matched: seq<FileSearchResult> := [];
      var j := 0;
      while j < |ids|
        invariant 0 <= j <= |ids|
        invariant forall k :: 0 <= k < j ==> |FilesWithMember(files, ids[k])| == 1
        invariant matched == MatchedFiles(files, ids[..j])
      {
        var id := ids[j];
        var found := FilesWithMember(files, id);
        if |found| != 1 {
          return None;
        }
        var result := ToSearchResult(found[0]);
        var household := new HouseholdMember[|result.householdMembers|](k requires 0 <= k < |result.householdMembers| =>
                                                                          result.householdMembers[k]);
        assert household[..] == result.householdMembers;
        MarkSearchMatches(household, id);
        matched := matched + [result.(householdMembers := household[..])];
        j := j + 1;
      }
      assert ids[..j] == ids;
      r := Some(matched);
    }

    /** VerifySecurityQuestionsQuery: the registrant must exist; the answer is how many
        submitted answers match one of its stored answers, ignoring case. */
    function VerifySecurityQuestions(registrantId: Id, answers: seq<SecurityQuestion>): (r: Result<nat, SubmissionError>)
      reads this
      ensures r.Err? <==> registrantId !in contacts
      ensures r.Err? ==> r.error == RegistrantNotFound(registrantId)
      ensures r.Ok? ==> r.value == CountCorrectAnswers(answers, contacts[registrantId].securityQuestions)
      ensures r.Ok? ==> r.value <= |answers|
      ensures r.Ok? ==> (r.value == 0 <==>
                forall a :: a in answers ==> !AnswerMatchesAny(a.answer, contacts[registrantId].securityQuestions))
    {
      if registrantId !in contacts then Err(RegistrantNotFound(registrantId))
      else Ok(CountCorrectAnswers(answers, contacts[registrantId].securityQuestions))
    }

    /** VerifySecurityPhraseQuery: the file must exist; the answer is whether the
        phrase equals the file's, ignoring case. */
    function VerifySecurityPhrase(fileId: Id, phrase: Option<string>): (r: Result<bool, SubmissionError>)
      reads this
      ensures r.Err? <==> forall f :: f in files ==> f.id != Some(fileId)
      ensures r.Err? ==> r.error == FileNotFound(fileId)
      ensures r.Ok? ==> exists f :: f in files && f.id == Some(fileId) && (r.value <==> SecurityPhraseMatches(f.securityPhrase, phrase))
    {
      match FindFile(files, fileId)
      case None => Err(FileNotFound(fileId))
      case Some(f) => Ok(SecurityPhraseMatches(f.securityPhrase, phrase))
    }
  }
}
