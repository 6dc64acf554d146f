# ESS managers: business rules of AdminManager and SubmissionsManager

This project models the business-rule layer of two command/query dispatchers
of the Emergency Support Services (ESS) backend, over in-memory stand-ins for
the repositories they call.

**AdminManager** (`Admin.AdminManager`, a class over maps of teams, team
members and suppliers) handles these commands:

- Team members: save, validate, delete, activate and deactivate. User names
  stay unique among active and inactive members.
- Log-in: the external user id is bound on the first login. Every later login
  must come with the same id.
- Community assignment: no community code is held by two teams.
- Suppliers: claim, share, unshare, remove, activate and deactivate. A
  supplier's primary team is never in its shared list, and the shared list has
  no repeats.
- Reference-data queries: filtering states/provinces and communities, and
  choosing the outage to show (modules `Metadata`, `Teams`, `Suppliers`).

**SubmissionsManager** (`Submissions.SubmissionsManager`, a class over a map
of contacts and a sequence of evacuation files) handles these:

- Saving a registrant: at most three security questions, and only changed
  answers are forwarded.
- Submitting a file, registered or anonymous: which store writes are issued,
  in which order, and when an e-mail is sent.
- The evacuee search's post-processing: argument checks, lookups that must find
  exactly one record, marking the matching household member (in place, over an
  array), the restricted-access blackout and the status filter (narrowing each
  profile's recent files in place).
- The case-insensitive security answer and phrase checks (modules
  `Registrants`, `EvacuationFiles`).

`Common` holds the .NET and LINQ semantics the rules rely on:

- `Where`, `Distinct`, `Count` and `Select` over sequences. A `Where` result is stated as a subsequence of the source list that holds each kept element as often as the list does (`Common.FilterCounts`). These two facts fix the result (`Common.FilterIsDetermined`).
- `string.IsNullOrEmpty`, `string.IsNullOrWhiteSpace` (with the `Char.IsWhiteSpace` set), and ordinal case-insensitive equality.

Nullable strings and ids are `Option<string>`. Ids that a repository hands
back (a new member's id, a contact id, a case id) are method parameters.
Timestamps (`DateTime.UtcNow`) are parameters too. SubmissionsManager's
repository calls are recorded, in order, in a log of `StoreWrite`s. Its
e-mails are recorded as `Notification`s: template, address, addressee name and
file number.

Behaviour of the source kept as written:

- `AssignCommunitiesToTeamCommand` appends a code that is repeated in the
  request once per repeat (`Teams.NewAssignments`).
- `VerifySecurityQuestionsQuery` counts an answer as correct when it matches the
  stored answer of any question, not of the question it was given for
  (`Registrants.CountCorrectAnswers`; `Registrants.AnswerToAnotherQuestionCounts`
  is an example).
- `SaveTeamMemberCommand` leaves the member out of the clash test when its id
  is not null, while `ValidateTeamMemberCommand` does so when its id is not
  null or empty. The two agree as long as no member is stored under the empty
  id, which the store invariant keeps (`Admin.AdminManager.Valid`).

## Model

| member | source | states |
|---|---|---|
| `Teams.SaveTestIsExact` | ess/src/API/EMBC.ESS/Managers/Admin/AdminManager.cs:74-84 | In a store with unique user names, the store after the save keeps user names unique if and only if no other active or inactive member has the user name. The member's own record is left out of that test when it carries an id. |
| `Teams.UniqueUserNamesMakeLoginUnambiguous` | ess/src/API/EMBC.ESS/Managers/Admin/AdminManager.cs:150 | With unique user names, the active-member lookup by user name finds at most one member, so its SingleOrDefault never throws. |
| `Teams.LogInMember` | ess/src/API/EMBC.ESS/Managers/Admin/AdminManager.cs:152-162 | The login is refused exactly when the bound external id differs from the caller's, or when the member logged in before without an external id. A mismatch reports both ids. Otherwise the caller's id is bound, the login time is set, nothing else changes, and "logged in ⇒ id bound" holds. |
| `Teams.LoginBindsExternalId` | ess/src/API/EMBC.ESS/Managers/Admin/AdminManager.cs:152-162 | After a successful login, a later login of that member succeeds if and only if it comes with the same user id. Any other id gets the mismatch error. |
| `Teams.AlreadyAssigned` | ess/src/API/EMBC.ESS/Managers/Admin/AdminManager.cs:127-129 | The reported codes are exactly the requested codes that another team holds, each once, in an order that follows the request. The report is empty if and only if no requested code is held elsewhere. |
| `Teams.NewAssignments` | ess/src/API/EMBC.ESS/Managers/Admin/AdminManager.cs:131-134 | Every appended assignment is dated `now` and is a requested code the team did not hold. The appended codes follow the request order, and each code the team did not hold is appended as often as the request repeats it. |
| `Teams.AssignHoldsOldAndRequested` | ess/src/API/EMBC.ESS/Managers/Admin/AdminManager.cs:132-135 | After an assignment (`Teams.WithAssigned`, the old assignments followed by `Teams.NewAssignments`) the team holds a code if and only if it held the code before or the code was requested. |
| `Teams.AssignKeepsCommunitiesExclusive` | ess/src/API/EMBC.ESS/Managers/Admin/AdminManager.cs:121-136 | An assignment that passed the already-assigned check keeps every community code with at most one team. |
| `Teams.WithUnassigned` | ess/src/API/EMBC.ESS/Managers/Admin/AdminManager.cs:144 | The remaining assignments are a subsequence of the old ones: exactly those whose code was not requested, in their order, each as often as before. The team name is kept. |
| `Teams.UnassignKeepsCommunitiesExclusive` | ess/src/API/EMBC.ESS/Managers/Admin/AdminManager.cs:139-146 | Unassigning keeps every community code with at most one team. |
| `Suppliers.Claim` | ess/src/API/EMBC.ESS/Managers/Admin/AdminManager.cs:267-270 | The claim as written: refused if and only if the supplier has a primary team. On success the requesting team is primary and the status is Active, and every other field, the shared list included, is unchanged. The sharing invariant survives only when the team was not shared with. |
| `Suppliers.RemoveShareClaimBreaksSharing` | ess/src/API/EMBC.ESS/Managers/Admin/AdminManager.cs:267-270 | For every supplier and team, remove then share then claim all succeed. The claiming team then ends up both primary and in the shared list. |
| `Suppliers.ClaimDroppingShare` | ess/src/API/EMBC.ESS/Managers/Admin/AdminManager.cs:260-274 | The corrected claim: refused exactly as the source's. On success the team is primary and Active, the shared list loses every occurrence of that team and keeps the rest in order, as often as before, and every other field is unchanged. The sharing invariant is preserved. |
| `Suppliers.Share` | ess/src/API/EMBC.ESS/Managers/Admin/AdminManager.cs:283-287 | Sharing with the primary team is refused, and so is sharing with a team already shared with. Otherwise, and only then, the team is appended. The sharing invariant is preserved. |
| `Suppliers.Unshare` | ess/src/API/EMBC.ESS/Managers/Admin/AdminManager.cs:300-303 | Unsharing the primary team is refused, and so is unsharing a team not shared with. Otherwise the team leaves the list, the rest keep their order and their number of occurrences, and every other field is unchanged. The sharing invariant is preserved. |
| `Suppliers.UnshareUndoesShare` | ess/src/API/EMBC.ESS/Managers/Admin/AdminManager.cs:276-307 | Sharing with a team and then unsharing it gives back the original supplier. |
| `Suppliers.Remove` | ess/src/API/EMBC.ESS/Managers/Admin/AdminManager.cs:225-226 | A removed supplier has no primary team and no shared teams. Its status and identity are kept and it satisfies the sharing invariant. |
| `Metadata.StateProvincesQuery` | ess/src/API/EMBC.ESS/Managers/Admin/AdminManager.cs:319-329 | The result is a subsequence of the cached list holding exactly the entries of the given country, each as often as the list does. With a null or empty country code it is the whole list. |
| `Metadata.CommunitiesQuery` | ess/src/API/EMBC.ESS/Managers/Admin/AdminManager.cs:334-353 | The result is a subsequence of the cached list holding exactly the communities that pass all three filters, each as often as the list does. An absent or empty filter does not restrict, and with no filters the result is the whole list. |
| `Metadata.FirstOutage` | ess/src/API/EMBC.ESS/Managers/Admin/AdminManager.cs:367-372 | There is no outage if and only if the list is empty. Otherwise the result has the earliest start date, and of those it is the first listed (the sort is stable). |
| `Admin.AdminManager.SaveTeamMember` | ess/src/API/EMBC.ESS/Managers/Admin/AdminManager.cs:74-84 | A user-name clash gives UsernameAlreadyExists and nothing changes. Otherwise the member is stored under its id, or under the fresh id when it has none. The store invariant is preserved. |
| `Admin.AdminManager.ValidateTeamMember` | ess/src/API/EMBC.ESS/Managers/Admin/AdminManager.cs:110-119 | `UniqueUserName` is exactly the negation of the save-time clash test. |
| `Admin.AdminManager.DeleteTeamMember` | ess/src/API/EMBC.ESS/Managers/Admin/AdminManager.cs:86-90 | A member not in the given team gives NotFound and nothing changes. Otherwise the member is removed. The store invariant is preserved. |
| `Admin.AdminManager.SetTeamMemberActive` | ess/src/API/EMBC.ESS/Managers/Admin/AdminManager.cs:92-108 | A member not in the given team gives NotFound and nothing changes. Otherwise only that member's IsActive changes, to the requested value. |
| `Admin.AdminManager.LogIn` | ess/src/API/EMBC.ESS/Managers/Admin/AdminManager.cs:148-167 | No active member with the name gives FailedLogin. Two or more give an error. For exactly one, the result and the stored member follow `Teams.LogInMember`. The store invariant and "logged in ⇒ id bound" are preserved. |
| `Admin.AdminManager.SignResponderAgreement` | ess/src/API/EMBC.ESS/Managers/Admin/AdminManager.cs:169-176 | An unknown or inactive user name gives NotFound. Otherwise only the member's agreement date is set. |
| `Admin.AdminManager.AssignCommunitiesToTeam` | ess/src/API/EMBC.ESS/Managers/Admin/AdminManager.cs:121-137 | An unknown team gives NotFound. Codes held by other teams give CommunitiesAlreadyAssigned with those codes, and nothing changes. Otherwise the team keeps its assignments as a prefix and gains the new ones. No code is then held by two teams. |
| `Admin.AdminManager.UnassignCommunitiesFromTeam` | ess/src/API/EMBC.ESS/Managers/Admin/AdminManager.cs:139-146 | An unknown team gives NotFound. Otherwise only that team changes, losing exactly the requested codes. |
| `Admin.AdminManager.ClaimSupplier` | ess/src/API/EMBC.ESS/Managers/Admin/AdminManager.cs:260-274 | An unknown supplier gives NotFound. Otherwise the outcome follows the corrected claim, and every supplier keeps the sharing invariant. |
| `Admin.AdminManager.ShareSupplier` | ess/src/API/EMBC.ESS/Managers/Admin/AdminManager.cs:276-291 | An unknown supplier gives NotFound. Otherwise the outcome follows `Suppliers.Share`. The sharing invariant is preserved. |
| `Admin.AdminManager.UnshareSupplier` | ess/src/API/EMBC.ESS/Managers/Admin/AdminManager.cs:293-307 | An unknown supplier gives NotFound. Otherwise the outcome follows `Suppliers.Unshare`. The sharing invariant is preserved. |
| `Admin.AdminManager.RemoveSupplier` | ess/src/API/EMBC.ESS/Managers/Admin/AdminManager.cs:217-230 | An unknown supplier gives NotFound. Otherwise the supplier loses its primary team and all sharing. |
| `Admin.AdminManager.SetSupplierStatus` | ess/src/API/EMBC.ESS/Managers/Admin/AdminManager.cs:232-258 | An unknown supplier gives NotFound. Otherwise only the supplier's status changes. |
| `Registrants.ChangedQuestions` | ess/src/API/EMBC.ESS/Managers/Submissions/SubmissionsManager.cs:122-127 | The forwarded questions are the subsequence of those whose answer changed, each as often as in the profile. The list is empty if and only if no answer changed, and never longer than three for a valid profile. |
| `Registrants.CountCorrectAnswers` | ess/src/API/EMBC.ESS/Managers/Submissions/SubmissionsManager.cs:287-289 | The count is the number of submitted answers, repeats included, that match a stored answer ignoring case: the length of the Where over the answers. So it is at most the number of answers, zero if and only if none matches, and the full number if and only if all do. |
| `Registrants.CountIgnoresLetterCase` | ess/src/API/EMBC.ESS/Managers/Submissions/SubmissionsManager.cs:288 | Answers that agree ignoring case, position by position, get the same count. |
| `Registrants.AnswerToAnotherQuestionCounts` | ess/src/API/EMBC.ESS/Managers/Submissions/SubmissionsManager.cs:288 | An example on one input: an answer given for one question counts when it equals, ignoring case, another question's stored answer. The general rule is `CountCorrectAnswers`'s contract. |
| `Registrants.SecurityPhraseMatches` | ess/src/API/EMBC.ESS/Managers/Submissions/SubmissionsManager.cs:303 | The phrases match if and only if both are null, or both are present and equal once upper-cased. |
| `EvacuationFiles.LinkPrimaryRegistrant` | ess/src/API/EMBC.ESS/Managers/Submissions/SubmissionsManager.cs:76 | The primary member is linked to the registrant. No other member changes, and no other field of any member changes. |
| `EvacuationFiles.LinkKeepsPrimaryRegistrant` | ess/src/API/EMBC.ESS/Managers/Submissions/SubmissionsManager.cs:76 | Linking keeps the number of primary members, and every primary member ends up linked. |
| `EvacuationFiles.FilesOf` | ess/src/API/EMBC.ESS/Managers/Submissions/SubmissionsManager.cs:233 | Exactly the files whose primary registrant is the given one. |
| `EvacuationFiles.FilesWithMember` | ess/src/API/EMBC.ESS/Managers/Submissions/SubmissionsManager.cs:242 | Exactly the files with a household member of the given id. |
| `EvacuationFiles.ProfileResult` | ess/src/API/EMBC.ESS/Managers/Submissions/SubmissionsManager.cs:232-236 | The profile carries the registrant's id and restriction flag, one recent file per file the registrant owns, and each recent file is the result of one of those files. |
| `EvacuationFiles.ProfileListsOwnedFiles` | ess/src/API/EMBC.ESS/Managers/Submissions/SubmissionsManager.cs:233-235 | Every file the registrant owns is among the profile's recent files. |
| `EvacuationFiles.MarkSearchMatch` | ess/src/API/EMBC.ESS/Managers/Submissions/SubmissionsManager.cs:244-248 | IsSearchMatch is set on exactly the members with the matched id and kept on the others. Nothing else changes. |
| `EvacuationFiles.MarkSearchMatchIdempotent` | ess/src/API/EMBC.ESS/Managers/Submissions/SubmissionsManager.cs:244-248 | Marking twice with the same id is marking once. |
| `EvacuationFiles.MarkSearchMatches` | ess/src/API/EMBC.ESS/Managers/Submissions/SubmissionsManager.cs:245-248 | The in-place loop over the household leaves exactly `MarkSearchMatch` of the old household. |
| `EvacuationFiles.MatchedFile` | ess/src/API/EMBC.ESS/Managers/Submissions/SubmissionsManager.cs:242-248 | The matched file's result differs from the file only in its household, which is `EvacuationFiles.MarkSearchMatch` of the file's household. When the member is in the file, that member is marked. |
| `EvacuationFiles.KeepStatuses` | ess/src/API/EMBC.ESS/Managers/Submissions/SubmissionsManager.cs:271 | The result is a subsequence: exactly the files in a listed status. |
| `EvacuationFiles.KeepStatusesCounts` | ess/src/API/EMBC.ESS/Managers/Submissions/SubmissionsManager.cs:271 | Each file in a listed status is kept as often as it was found, and no other file is kept. |
| `EvacuationFiles.ProfilesKeepingStatusesNarrows` | ess/src/API/EMBC.ESS/Managers/Submissions/SubmissionsManager.cs:267-270 | Every profile is kept, in order, with its id and restriction flag. Its recent files become the subsequence in a listed status, each as often as before. |
| `EvacuationFiles.KeepRecentFilesInStatuses` | ess/src/API/EMBC.ESS/Managers/Submissions/SubmissionsManager.cs:267-270 | The in-place loop over the profiles leaves exactly `ProfilesKeepingStatuses` of the old profiles, whose effect `ProfilesKeepingStatusesNarrows` states. |
| `EvacuationFiles.PostProcessResults` | ess/src/API/EMBC.ESS/Managers/Submissions/SubmissionsManager.cs:257-278 | The handler's blackout and in-place status filtering give exactly `EvacuationFiles.PostProcess`, whose effect `BlackoutHidesRestricted` and `StatusFilterKeepsListed` state. |
| `EvacuationFiles.BlackoutHidesRestricted` | ess/src/API/EMBC.ESS/Managers/Submissions/SubmissionsManager.cs:257-262 | Without restricted access, anything restricted (a profile, a profile's recent file or a matched file) empties the whole response. No restricted record is ever returned, and otherwise every profile is. |
| `EvacuationFiles.StatusFilterKeepsListed` | ess/src/API/EMBC.ESS/Managers/Submissions/SubmissionsManager.cs:264-272 | With statuses listed, every returned recent or matched file has a listed status. Outside the blackout, no profile is dropped, and the matched files and each profile's recent files in a listed status are kept in order, each as often as before. |
| `Submissions.RegistrantWrites` | ess/src/API/EMBC.ESS/Managers/Submissions/SubmissionsManager.cs:119-127 | The contact is saved first. An UpdateSecurityQuestions for the new contact id follows if and only if some answer changed. It carries the changed questions in order, each as often as in the profile, and no other question. |
| `Submissions.WelcomeNotice` | ess/src/API/EMBC.ESS/Managers/Submissions/SubmissionsManager.cs:129-140 | One welcome e-mail, to the profile's address and name, if and only if the profile id is null or empty and the e-mail is not null. |
| `Submissions.NewFileNotice` | ess/src/API/EMBC.ESS/Managers/Submissions/SubmissionsManager.cs:103-111 | One new-file e-mail, to the registrant and carrying the case id, if and only if the file id is null or empty and the registrant's e-mail is neither null nor empty. |
| `Submissions.AnonymousFileNotice` | ess/src/API/EMBC.ESS/Managers/Submissions/SubmissionsManager.cs:80-87 | One anonymous-submission e-mail, carrying the case id, if and only if the submitter's e-mail is not null. |
| `Submissions.NoNoticeForExistingRecords` | ess/src/API/EMBC.ESS/Managers/Submissions/SubmissionsManager.cs:103-140 | Updating an existing profile or file sends no e-mail. |
| `Submissions.AnonymousFile` | ess/src/API/EMBC.ESS/Managers/Submissions/SubmissionsManager.cs:75-76 | The stored file is owned by the new contact, and its household is `EvacuationFiles.LinkPrimaryRegistrant` of the submitted one: the primary member is linked to the contact. Nothing else in the file changes, and the number of primary members is kept. |
| `Submissions.EvacueeSearchOutcome` | ess/src/API/EMBC.ESS/Managers/Submissions/SubmissionsManager.cs:221-279 | The search fails if and only if a name or the date of birth is null or whitespace, or a lookup does not find exactly one record. The errors come in the source's order: FirstName, LastName, DateOfBirth, then the failed lookup. Without restricted access, anything restricted empties the response. Otherwise every hit registrant has a profile, in hit order, and the files returned are the matched files, narrowed to the listed statuses when there are any. With no statuses listed the response is exactly the profiles and the matched files. |
| `Submissions.ProfileResultsFollowHits` | ess/src/API/EMBC.ESS/Managers/Submissions/SubmissionsManager.cs:230-237 | The profile for each hit carries that registrant's id and restriction flag, and all of the registrant's files. |
| `Submissions.MatchedFilesFollowHits` | ess/src/API/EMBC.ESS/Managers/Submissions/SubmissionsManager.cs:240-250 | The result for each household-member hit is a stored file holding that member, whose household is `EvacuationFiles.MarkSearchMatch` of the stored one: that member is marked and nothing else is changed. |
| `Submissions.FindFile` | ess/src/API/EMBC.ESS/Managers/Submissions/SubmissionsManager.cs:295-301 | None if and only if no file has the id. Otherwise the result is the first file with that id. |
| `Submissions.SubmissionsManager.SaveRegistrant` | ess/src/API/EMBC.ESS/Managers/Submissions/SubmissionsManager.cs:116-143 | More than three questions give an error before any write or e-mail. Otherwise the writes are `RegistrantWrites`, the e-mails are `WelcomeNotice`, and the contact id is returned. |
| `Submissions.SubmissionsManager.SubmitEvacuationFile` | ess/src/API/EMBC.ESS/Managers/Submissions/SubmissionsManager.cs:92-114 | An unknown registrant gives RegistrantNotFound with nothing written. Otherwise the file is saved, then its phrase when it changed, and the e-mails are `NewFileNotice`. |
| `Submissions.SubmissionsManager.SubmitAnonymousEvacuationFile` | ess/src/API/EMBC.ESS/Managers/Submissions/SubmissionsManager.cs:70-90 | The submitter's contact is always saved first. A file without exactly one primary member then fails. Otherwise `AnonymousFile` is saved and the e-mails are `AnonymousFileNotice`. |
| `Submissions.SubmissionsManager.SaveEvacuationFileNote` | ess/src/API/EMBC.ESS/Managers/Submissions/SubmissionsManager.cs:311-318 | A note is refused if and only if both its own id and the file id are null or empty. Otherwise exactly one note write is issued. |
| `Submissions.SubmissionsManager.EvacueeSearch` | ess/src/API/EMBC.ESS/Managers/Submissions/SubmissionsManager.cs:221-279 | The handler's loops, with the in-place marking and filtering, give exactly `EvacueeSearchOutcome`. |
| `Submissions.SubmissionsManager.LookUpProfiles` | ess/src/API/EMBC.ESS/Managers/Submissions/SubmissionsManager.cs:230-237 | The lookup fails if and only if some registrant has no contact. Otherwise it gives `Submissions.ProfileResults`: the profile result of every registrant, in hit order. |
| `Submissions.SubmissionsManager.LookUpMatchedFiles` | ess/src/API/EMBC.ESS/Managers/Submissions/SubmissionsManager.cs:240-250 | The lookup fails if and only if some member is not in exactly one file. Otherwise it gives `Submissions.MatchedFiles`: every member's file with that member marked, in hit order. |
| `Submissions.SubmissionsManager.VerifySecurityQuestions` | ess/src/API/EMBC.ESS/Managers/Submissions/SubmissionsManager.cs:281-291 | An unknown registrant gives RegistrantNotFound. Otherwise the answer is `CountCorrectAnswers` over the registrant's stored questions: at most the number of answers, and zero if and only if no answer matches a stored one ignoring case. |
| `Submissions.SubmissionsManager.VerifySecurityPhrase` | ess/src/API/EMBC.ESS/Managers/Submissions/SubmissionsManager.cs:293-309 | No file with the id gives FileNotFound. Otherwise the answer is whether the phrase matches a stored file's phrase ignoring case. |

## Left out

- Repositories, the Dynamics back end and AutoMapper are replaced by maps and sequences. Their own behaviour is not visible: how a repository assigns ids, what deleting a member does, and how masking of security answers and phrases works.
- SubmissionsManager's writes are logged, not applied to `contacts` and `files`. A later query in the same model does not see an earlier save.
- The metadata cache (`GetOrSet`, refresh, lifetimes) is left out. The cached lists are inputs. The countries and security-question queries are plain cache reads.
- E-mail templating and sending are left out. Only the decision, the template, the addressee and the file-number token are modelled.
- The bounded-concurrency fan-out of the evacuee search and its `ConcurrentBag` are left out. The model looks the hits up one after the other and returns them in hit order. The source promises no order.
- `DateTime.UtcNow` is a parameter.
- The remaining handlers of the two managers are outside the modelled ones. Most pass a query straight through to a repository and map what comes back: the teams, team members, registrants, notes and tasks queries. `SaveSupplierCommand` maps the supplier and saves it. The others make one check of their own first:
  - `SuppliersQuery` throws "Unknown query type" when neither a team id nor a supplier id, legal name or GST number is given (AdminManager.cs:203-206).
  - `EvacuationFilesQuery`, given a user id, throws when no registrant has that user id (SubmissionsManager.cs:192-196). It then fills in each note's author from the team repository.
  - `DeleteRegistrantCommand` does nothing when no registrant has the user id, and otherwise deletes it (SubmissionsManager.cs:145-150).
  - `SetRegistrantVerificationStatusCommand` throws when the registrant is missing, then sets `Verified` and saves it (SubmissionsManager.cs:152-158).
- `Common.EqualsIgnoreCase`: ordinal case-insensitive comparison is modelled for ASCII letters only, and other characters compare exactly. `Common.EqualsIgnoreCaseOnlyFoldsLetters` states this limit: case-insensitively equal strings differ only where one has an ASCII lower-case letter.
- LogIn: the caller's user id is modelled as non-null, and "logged in ⇒ id bound" (`Teams.LoginBound`) is proved only for such ids. In the source, a null user id lets a member who never logged in pass both checks (AdminManager.cs:152, 154). The member is then stored with a null external id and a login time, and that member's next login throws at line 154.
- User names are modelled as non-null. The source only hands them to the team repository's member query, whose handling of a null is not part of this model.
- Security answers are modelled as non-null. In the source, a null submitted answer throws a null-reference exception at SubmissionsManager.cs:288 when the registrant has at least one stored question, and counts as incorrect when there is none. A null stored answer matches nothing.
- RemoveSupplier, ShareSupplier and UnshareSupplier (`Admin.AdminManager`): the source dereferences the supplier's team object (AdminManager.cs:225, 283, 300) and throws a null-reference exception when it is null. The model does not tell a null team object from a team with a null id. It treats both as having no primary team, so these handlers succeed where the source throws. Only the claim (line 267) checks for a null team object.
- Community types are compared by name, as the source does through `ToString()` (AdminManager.cs:348-349). File statuses are compared by value with `Contains` (SubmissionsManager.cs:269, 271), and the model represents a status by its name.
- Search results carry only the fields the rules read: ids, status, restriction flags and household members.

## Findings

| source | as written | input that shows it | evidently intended | confidence | as-written member | corrected member |
|---|---|---|---|---|---|---|
| ess/src/API/EMBC.ESS/Managers/Admin/AdminManager.cs:267-270 | The claim checks only that the supplier has no primary team. The claiming team stays in the shared list. | Remove the supplier from its teams, share it with team B, then have B claim it. B is then both the primary team and a shared team. This needs the repository to return the removed supplier with a team object whose id is null, as line 225 stores it. With a null team object, share throws at line 283 before the claim. | The primary team is never among the shared teams (share refuses the primary team, and unshare refuses to remove it). | high if the repository returns the team object with a null id, which is not visible here; not executed | `Suppliers.RemoveShareClaimBreaksSharing` | `Suppliers.ClaimDroppingShare` |
