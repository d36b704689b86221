# Student club portal: a verified model of its data layer

This project is a Dafny model of the data layer of a React student-club portal. It covers:

- the club context that holds clubs, events and ideas;
- the two storage-backed services for events and ideas;
- registration, login and the authentication context;
- the shared helpers and form validators;
- the tag parser of the idea form;
- the list derivations of the ideas, events, clubs, home and dashboard pages.

Everything is a pure function over immutable values, and each operation is one atomic transition:

- the club context is one `Store(clubs, events, ideas)` value;
- a service's storage blob is a `seq<Event>` or `seq<Idea>` passed in and returned, with failures as `Result` values;
- the browser's account list and signed-in user are a `Browser` value.

Generated ids and today's date are parameters. Dates are ISO `YYYY-MM-DD` strings compared lexicographically. JavaScript's `Array.prototype.sort` with a consistent comparator is a stable sort, so it is modelled by the stable insertion sort `Sorting.Sort`.

Modules, in dependency order:

| module | file | contents |
|---|---|---|
| `Wrappers` | wrappers.dfy | `Option`, `Result` |
| `Seqs` | seqs.dfy | filter, map, take, find, distinct, subsequence |
| `Text` | text.dfy | ASCII case mapping, JS whitespace and `trim`, `includes`, `split`/`join`, string order, decimal rendering |
| `Sorting` | sorting.dfy | stable insertion sort; sortedness, stability, and "the first k are the smallest" |
| `Constants` | constants.dfy | validation bounds |
| `Entities` | entities.dfy | club, event and idea records; creation drafts; shallow-merge patches |
| `ClubStore` | club_store.dfy | the club context and its relationship invariant |
| `EventService`, `IdeaService` | event_service.dfy, idea_service.dfy | the storage services |
| `Helpers`, `NumberFormat`, `ObjectHelpers` | helpers.dfy, number_format.dfy, object_helpers.dfy | the helper functions |
| `Validators` | validators.dfy | field checks and form validators |
| `IdeaForm` | idea_form.dfy | tag parsing and the idea draft the form submits |
| `Auth` | auth.dfy | registration, login, session |
| `PageCommon`, `IdeasPage`, `EventsPage`, `ClubsPage`, `HomePage`, `DashboardPage` | page_common.dfy … dashboard_page.dfy | the page derivations |

## Model

| member | source | states |
|---|---|---|
| ClubStore.SeedIsConsistent | src/contexts/ClubContext.jsx:11-149 | The sample data satisfies the relationship invariant: each sample club's `events`/`ideas` lists are, in order, the ids of the sample events/ideas that name that club, and no club id is empty |
| ClubStore.GetClubById | src/contexts/ClubContext.jsx:167-169 | Returns the first club with the id, as `find` does; nothing is found exactly when no club has the id |
| ClubStore.GetEventById | src/contexts/ClubContext.jsx:196-198 | Returns the first event with the id, as `find` does; nothing is found exactly when no event has the id |
| ClubStore.GetIdeaById | src/contexts/ClubContext.jsx:258-260 | Returns the first idea with the id, as `find` does; nothing is found exactly when no idea has the id |
| ClubStore.GetEventsByClubId | src/contexts/ClubContext.jsx:200-202 | The club's events in stored order, each as often as it is stored, and no other event |
| ClubStore.GetIdeasByClubId | src/contexts/ClubContext.jsx:262-264 | The club's ideas in stored order, each as often as it is stored, and no other idea |
| ClubStore.CreateClub | src/contexts/ClubContext.jsx:171-183 | The new club has one member, today's date and empty child lists, whatever the caller passed; a caller id wins over the generated one; name, description, category, logo, president and faculty are copied; it is appended last and nothing else changes |
| ClubStore.UpdateClub | src/contexts/ClubContext.jsx:185-188 | Every club with the id gets the patch shallow-merged; the other clubs, the length, and the events and ideas are unchanged |
| ClubStore.DeleteClub | src/contexts/ClubContext.jsx:190-193 | The remaining clubs are the clubs without the id, in stored order and each as often as it was stored; events and ideas are untouched |
| ClubStore.CreateEvent | src/contexts/ClubContext.jsx:204-228 | Every draft field is copied; the new event has 0 attendees and status 'upcoming' whatever the caller passed, and is appended last; when its club id is set, every club with that id gains the new id at the end of `events`, and all other clubs are unchanged |
| ClubStore.UpdateEvent | src/contexts/ClubContext.jsx:230-233 | Every event with the id gets the patch merged; other events, the length, clubs and ideas are unchanged |
| ClubStore.DeleteEvent | src/contexts/ClubContext.jsx:235-255 | The remaining events are the events without the id, in stored order and each as often as it was stored; the club named by the first event with the id loses that id from `events`, and every other club is unchanged |
| ClubStore.CreateIdea | src/contexts/ClubContext.jsx:266-291 | Every draft field (title, description, creator, club id, tags) is copied and a caller id wins over the generated one; the new idea has 0 votes, status 'proposed' and today's date whatever the caller passed, and is appended last; the owning club's `ideas` gains the id at the end, and all other clubs are unchanged |
| ClubStore.UpdateIdea | src/contexts/ClubContext.jsx:293-296 | Every idea with the id gets the patch merged; nothing else changes |
| ClubStore.DeleteIdea | src/contexts/ClubContext.jsx:298-318 | The remaining ideas are the ideas without the id, in stored order and each as often as it was stored; the owning club of the first idea with the id loses that id from `ideas`, and every other club is unchanged |
| ClubStore.VoteIdea | src/contexts/ClubContext.jsx:320-329 | Each idea with the id gains exactly one vote with every other field unchanged; other ideas, clubs and events are unchanged |
| ClubStore.CreateEventKeepsConsistency | src/contexts/ClubContext.jsx:204-228 | Creating an event with a fresh id preserves the relationship invariant |
| ClubStore.CreateIdeaKeepsConsistency | src/contexts/ClubContext.jsx:266-291 | Creating an idea with a fresh id preserves the relationship invariant |
| ClubStore.DeleteEventKeepsConsistency | src/contexts/ClubContext.jsx:235-255 | Deleting any event id preserves the relationship invariant |
| ClubStore.DeleteIdeaKeepsConsistency | src/contexts/ClubContext.jsx:298-318 | Deleting any idea id preserves the relationship invariant |
| ClubStore.VoteIdeaKeepsConsistency | src/contexts/ClubContext.jsx:320-329 | Voting preserves the relationship invariant |
| ClubStore.UpdateEventKeepsConsistency | src/contexts/ClubContext.jsx:230-233 | A patch that changes neither the id nor the club preserves the invariant |
| ClubStore.UpdateIdeaKeepsConsistency | src/contexts/ClubContext.jsx:293-296 | A patch that changes neither the id nor the club preserves the invariant |
| ClubStore.UpdateClubKeepsConsistency | src/contexts/ClubContext.jsx:185-188 | A patch that changes neither the id nor the child lists preserves the invariant |
| ClubStore.CreateClubKeepsConsistency | src/contexts/ClubContext.jsx:171-183 | A new club with a non-empty id that no child names yet preserves the invariant |
| ClubStore.DeleteClubLeavesDanglingChildren | src/contexts/ClubContext.jsx:190-193 | Deleting a club keeps the invariant but leaves its events stored, with a club reference no remaining club has |
| ClubStore.CreateThenDeleteEvent | src/contexts/ClubContext.jsx:204-255 | In a consistent store, creating an event with a fresh id and then deleting that id restores the store exactly |
| ClubStore.CreateThenDeleteIdea | src/contexts/ClubContext.jsx:266-318 | In a consistent store, creating an idea with a fresh id and then deleting that id restores the store exactly |
| ClubStore.StaleIdCreateThenDeleteLosesOlder | src/contexts/ClubContext.jsx:204-255 | With a reused id, create-then-delete also removes the older event with that id, so the events are not restored |
| ClubStore.DeleteAbsentEventIsNoOp | src/contexts/ClubContext.jsx:235-255 | Deleting an id no event has leaves the store unchanged |
| ClubStore.DeleteAbsentIdeaIsNoOp | src/contexts/ClubContext.jsx:298-318 | Deleting an id no idea has leaves the store unchanged |
| ClubStore.VoteAbsentIdeaIsNoOp | src/contexts/ClubContext.jsx:320-329 | Voting for an id no idea has leaves the store unchanged |
| ClubStore.CreatedEventIsFound | src/contexts/ClubContext.jsx:196-228 | Looking up a freshly created event's id returns the created record |
| EventService.GetEventById | src/services/EventService.jsx:83-95 | Returns the first event with the id; fails with "Event not found" exactly when none has it |
| EventService.GetEventsByClubId | src/services/EventService.jsx:102-108 | The club's events in stored order, each as often as it is stored, and no other event |
| EventService.CreateEvent | src/services/EventService.jsx:115-141 | Rejected with "Missing required fields", storage unchanged, exactly when name, description, date, time, venue or club id is empty; otherwise every draft field (name, description, date, time, venue, club id, image) is copied, a caller id wins over the generated one, and the event is appended with 0 attendees and the caller's status, or 'upcoming' when it is absent or empty |
| EventService.UpdateEvent | src/services/EventService.jsx:149-171 | Fails with not-found, storage unchanged, exactly when no event has the id; otherwise only the first match is replaced by the merged record |
| EventService.DeleteEvent | src/services/EventService.jsx:178-195 | Fails with not-found exactly when no event has the id, leaving storage alone; otherwise the stored events become those without the id, in order and each as often as before |
| EventService.AttendEvent | src/services/EventService.jsx:204-220 | The first event with the id gains exactly one attendee; a missing id fails with not-found |
| EventService.CancelAttendance | src/services/EventService.jsx:229-244 | The first event with the id gets max(0, attendees - 1); a missing id fails with not-found |
| EventService.EventsWithStatus | src/services/EventService.jsx:250-268 | The events with the given status in stored order, each as often as it is stored, and no other event |
| EventService.GetUpcomingEvents | src/services/EventService.jsx:250-256 | Exactly the events with status 'upcoming' |
| EventService.GetPastEvents | src/services/EventService.jsx:262-268 | Exactly the events with status 'completed' |
| EventService.GetAndUpdateAgree | src/services/EventService.jsx:83-171 | Update succeeds exactly when lookup does, and returns the looked-up event with the patch merged |
| EventService.DeleteTwiceRejects | src/services/EventService.jsx:178-195 | Repeating a successful delete fails with not-found |
| EventService.CreateThenDelete | src/services/EventService.jsx:115-195 | Deleting a freshly created event succeeds and restores the storage exactly |
| EventService.AttendThenCancel | src/services/EventService.jsx:204-244 | With non-negative counts, attending then cancelling restores the storage |
| EventService.CancelAttendanceBounds | src/services/EventService.jsx:229-244 | Cancelling for a stored id succeeds; the count after cancelling is never negative, and drops by exactly one when it was positive |
| EventService.UpcomingAndPastDisjoint | src/services/EventService.jsx:250-268 | No event is both upcoming and past, and a cancelled event is in neither list |
| EventService.FiltersKeepOrder | src/services/EventService.jsx:102-108 | The upcoming, past and by-club lists are subsequences of the storage, in storage order |
| IdeaService.GetIdeaById | src/services/IdeaService.jsx:79-91 | Returns the first idea with the id; fails with "Idea not found" exactly when none has it |
| IdeaService.GetIdeasByClubId | src/services/IdeaService.jsx:98-104 | The club's ideas in stored order, each as often as it is stored, and no other idea |
| IdeaService.CreateIdea | src/services/IdeaService.jsx:111-138 | Rejected, storage unchanged, exactly when title, description or club id is empty; otherwise every draft field (title, description, creator, club id, tags) is copied, a caller id wins over the generated one, and the idea is appended with 0 votes, status 'proposed' and today's date |
| IdeaService.UpdateIdea | src/services/IdeaService.jsx:146-168 | Fails with not-found, storage unchanged, for an absent id; otherwise only the first match is merged |
| IdeaService.DeleteIdea | src/services/IdeaService.jsx:175-192 | Fails with not-found exactly when no idea has the id, leaving storage alone; otherwise the stored ideas become those without the id, in order and each as often as before |
| IdeaService.VoteIdea | src/services/IdeaService.jsx:200-216 | The first idea with the id gains exactly one vote; a missing id fails with not-found |
| IdeaService.UpdateIdeaStatus | src/services/IdeaService.jsx:224-243 | A status outside proposed/in-progress/approved/rejected fails with "Invalid status" before any lookup; otherwise it behaves like a lookup that sets only the status of the first match |
| IdeaService.VotesAccumulate | src/services/IdeaService.jsx:200-216 | n votes add exactly n to the first matching idea: there is no per-user deduplication |
| IdeaService.InvalidStatusWins | src/services/IdeaService.jsx:228-232 | For a missing id and an invalid status, the error is "Invalid status", not "not found" |
| IdeaService.StatusChangesAreUnordered | src/services/IdeaService.jsx:234-242 | Any valid status can follow any other: no transition order is enforced |
| IdeaService.DeleteTwiceRejects | src/services/IdeaService.jsx:175-192 | Repeating a successful delete fails with not-found |
| IdeaService.CreateThenDelete | src/services/IdeaService.jsx:111-192 | Deleting a freshly created idea succeeds and restores the storage exactly |
| IdeaService.ClubFilterKeepsOrder | src/services/IdeaService.jsx:98-104 | The by-club list is a subsequence of the storage |
| Helpers.TruncateString | src/utils/helpers.jsx:39-45 | Empty input gives ''; input no longer than the limit is returned unchanged; otherwise a prefix followed by "..." |
| Helpers.TruncateDefault | src/utils/helpers.jsx:39-45 | Without a length argument the limit is 50: a string of at most 50 characters is returned unchanged, a longer one becomes its first 50 characters plus "..." |
| Helpers.TruncateKeepsLongestPrefix | src/utils/helpers.jsx:39-45 | For a non-negative limit n, a longer string becomes its first n characters plus "...", of length n + 3 |
| Helpers.FormatTimeOfClockTime | src/utils/helpers.jsx:22-31 | On "HH:MM" with an hour from 0 to 23: hours 0 and 12 print as 12, hours 13 to 23 as h - 12, the minutes are copied verbatim, and the period is PM exactly from hour 12 on |
| Helpers.FormatTimeWithoutColon | src/utils/helpers.jsx:22-31 | Without a colon the minutes print as "undefined" |
| Helpers.CapitalizeWordsKeepsWords | src/utils/helpers.jsx:60-67 | The result has the same number of space-separated words, each capitalised on its own |
| Helpers.CapitalizeWord | src/utils/helpers.jsx:60-67 | A capitalised word keeps its length; its first character is the input's first character upper-cased and every later one the input's character lower-cased |
| Helpers.CapitalizeWordsIdempotent | src/utils/helpers.jsx:60-67 | Capitalising twice is the same as capitalising once |
| Helpers.StripHtmlTagFree | src/utils/helpers.jsx:247-251 | The result contains no `<...>` tag |
| Helpers.StripHtmlKeepsTagFree | src/utils/helpers.jsx:247-251 | Text without tags is returned unchanged |
| Helpers.StripHtmlIdempotent | src/utils/helpers.jsx:247-251 | Stripping twice is the same as stripping once |
| Helpers.GetStatusColor | src/utils/helpers.jsx:178-190 | Each of the seven known statuses gets its listed colour; anything else gets 'secondary' |
| NumberFormat.FormatNumber | src/utils/helpers.jsx:74-78 | An integer prints as its digits grouped in threes from the right, after a minus sign when negative; a missing number prints as '' |
| NumberFormat.FormatNumberGroupsDigits | src/utils/helpers.jsx:74-78 | Deleting the commas gives back the decimal digits, and every group after the first has exactly three digits while the first has one to three |
| NumberFormat.FractionDigitsGetGrouped | src/utils/helpers.jsx:74-78 | As written, the pattern also groups fraction digits: 0.1234 prints as "0.1,234" |
| NumberFormat.GroupIntegerPartOfDecimal | src/utils/helpers.jsx:74-78 | The corrected formatter groups only the integer digits and keeps the fraction verbatim |
| NumberFormat.FormatDecimalAgreesOnIntegers | src/utils/helpers.jsx:74-78 | On integers the corrected formatter agrees with the original |
| ObjectHelpers.FlattenArrayKeepsOrder | src/utils/helpers.jsx:94-96 | Flattening appends the arrays' elements in order, and every element of the result comes from one of the arrays |
| ObjectHelpers.GroupBy | src/utils/helpers.jsx:104-113 | There is a group for a name exactly when some item's key value renders as that name |
| ObjectHelpers.GroupByIsFilter | src/utils/helpers.jsx:104-113 | Each group holds exactly the items with that key, in input order |
| ObjectHelpers.GroupSizesSum | src/utils/helpers.jsx:104-113 | The group sizes add up to the input length |
| ObjectHelpers.SortByKey | src/utils/helpers.jsx:122-128 | The result is a permutation of the input |
| ObjectHelpers.SortByKeyOrders | src/utils/helpers.jsx:122-128 | The result is ordered by the key, ascending or descending as requested |
| ObjectHelpers.SortByKeyStable | src/utils/helpers.jsx:122-128 | Items with equal keys keep their input order |
| ObjectHelpers.ValueLessOrder | src/utils/helpers.jsx:124-125 | Among strings, or among numbers, booleans and null, `<` is asymmetric and transitive and its complement is transitive, so the comparator is consistent |
| ObjectHelpers.NullSortsAsZero | src/utils/helpers.jsx:122-128 | A null key compares as 0, so it sorts before a key of 5 |
| ObjectHelpers.StringToNumberOfIntToString | src/utils/helpers.jsx:124-125 | The string-to-number conversion `<` applies reads any written-out integer back as itself |
| ObjectHelpers.FilterBySearchTerm | src/utils/helpers.jsx:137-151 | An empty term returns the input; otherwise an item is kept exactly when some listed key holds a string containing the term, ignoring case |
| ObjectHelpers.SearchKeepsOrder | src/utils/helpers.jsx:137-151 | The result is a subsequence of the input |
| ObjectHelpers.NonStringsNeverMatch | src/utils/helpers.jsx:137-151 | An item whose listed keys hold no strings never matches a non-empty term |
| Validators.IsValidEmailMatchesPattern | src/utils/validators.jsx:9-14 | An email is valid exactly when it has no whitespace, one '@' with a non-empty local part, and a '.' strictly inside the domain |
| Validators.IsEmptyMatchesTrim | src/utils/validators.jsx:21-23 | A value is empty exactly when it is missing or only whitespace |
| Validators.MeetsMinLength | src/utils/validators.jsx:31-34 | An empty value never meets a minimum; otherwise the untrimmed length is compared |
| Validators.MeetsMaxLength | src/utils/validators.jsx:42-45 | An empty value always meets a maximum; otherwise the untrimmed length is compared |
| Validators.IsStrongPassword | src/utils/validators.jsx:99-107 | True exactly when the password has at least 8 characters, all from [A-Za-z0-9@$!%*?&], with a lower-case letter, an upper-case letter, a digit and a special character |
| Validators.RegistrationFieldErrors | src/utils/validators.jsx:114-154 | The confirmation errors exactly when it is empty or differs from the password; unaccepted terms always error |
| Validators.RegistrationErrorsIffInvalid | src/utils/validators.jsx:114-154 | The registration validator returns no errors exactly when every field passes |
| Validators.LoginErrorsIffInvalid | src/utils/validators.jsx:161-175 | No errors exactly when the email is valid and the password is filled |
| Validators.ClubNameError | src/utils/validators.jsx:182-212 | The club name is checked required, then minimum 3, then maximum 50, and the first failure's message is the field's one message |
| Validators.ClubFieldErrors | src/utils/validators.jsx:182-212 | The name errors exactly when it is not 3 to 50 characters, and the description exactly when it is shorter than 20 |
| Validators.ClubErrorsIffInvalid | src/utils/validators.jsx:182-212 | The club validator returns no errors exactly when every field passes |
| Validators.IdeaFieldErrors | src/utils/validators.jsx:219-245 | The title must be 5 to 100 characters, the description at least 20, and the club id is required |
| Validators.IdeaErrorsIffInvalid | src/utils/validators.jsx:219-245 | The idea validator returns no errors exactly when every field passes |
| Validators.EventFieldErrors | src/utils/validators.jsx:252-288 | The name must be 5 to 100 characters, the date filled and valid, and the club id is required |
| Validators.EventErrorsIffInvalid | src/utils/validators.jsx:252-288 | The event validator returns no errors exactly when every field passes |
| Validators.ProfileFieldErrors | src/utils/validators.jsx:295-323 | The bio errors only when present and longer than 250 characters; a blank name gets the "required" message |
| Validators.ProfileErrorsIffInvalid | src/utils/validators.jsx:295-323 | The profile validator returns no errors exactly when every field passes |
| IdeaForm.ParseTags | src/components/ideas/CreateIdea.jsx:47-50 | There are at most (number of commas + 1) tags, and none is empty |
| IdeaForm.ParsedTagsAreTags | src/components/ideas/CreateIdea.jsx:47-50 | Every tag is non-empty, trimmed, lower-case and comma-free |
| IdeaForm.ParsedTagsKeepOrder | src/components/ideas/CreateIdea.jsx:47-50 | The tags are a subsequence of the normalised comma-separated pieces, in input order |
| IdeaForm.SeparatorsOnlyYieldNoTags | src/components/ideas/CreateIdea.jsx:47-50 | Input made only of commas and whitespace yields no tags |
| IdeaForm.ParseJoinedTags | src/components/ideas/CreateIdea.jsx:47-50 | Parsing tags joined with commas gives the same tags back |
| IdeaForm.SubmitIdeaDraft | src/components/ideas/CreateIdea.jsx:52-56 | The submitted draft's creator is the current user's name and its tags are the parsed list, overriding the form's fields |
| IdeaForm.SubmittedIdeaIsWellFormed | src/components/ideas/CreateIdea.jsx:47-56 | The stored idea is by the current user, in the chosen club, 'proposed' with 0 votes, and carries only well-formed tags |
| Auth.Register | src/components/auth/Register.jsx:25-41 | An email already stored (exact match) is refused with an email-field error and nothing changes; otherwise exactly one account, the form minus its confirmation and terms fields, is appended |
| Auth.RegisterKeepsEmailsDistinct | src/components/auth/Register.jsx:27-41 | If stored emails were distinct before a registration, they are distinct after it |
| Auth.Login | src/components/auth/Login.jsx:32-44 | Succeeds exactly when some account has both the email and the password; the first such account becomes the current user; on failure nothing is stored and both fields get the error; the account list is never written |
| Auth.RegisterThenLogin | src/components/auth/Login.jsx:32-44 | A freshly registered account can sign in, and it is the account that signs in |
| Auth.LoginFindsTheAccount | src/components/auth/Login.jsx:35-44 | With distinct emails, the account that signs in is the one with that email |
| Auth.MockProfile | src/contexts/AuthContext.jsx:25-40 | The mock user has id '1', role 'student' and the given email |
| Auth.ContextLogin | src/contexts/AuthContext.jsx:25-40 | After login the current user is the returned mock profile |
| Auth.ContextLoginIgnoresPassword | src/contexts/AuthContext.jsx:25-40 | The mock login gives the same result for any password |
| Auth.NewUser | src/contexts/AuthContext.jsx:43-54 | The registered user always has role 'student' and the default picture, keeps every other caller field, and a caller id wins over the generated one |
| Auth.ContextRegister | src/contexts/AuthContext.jsx:43-54 | After registering the current user is the returned record |
| Auth.Logout | src/contexts/AuthContext.jsx:56-59 | After logout nobody is authenticated |
| Auth.SessionTransitions | src/contexts/AuthContext.jsx:37-66 | Login and register authenticate; logging out after either returns to the signed-out session |
| PageCommon.GetClubName | src/pages/IdeasPage.jsx:16-19 | The name of the first club with the id, or 'Unknown Club' when there is none |
| PageCommon.DateLeqIsOrder | src/pages/EventsPage.jsx:44-51 | Date comparison is total and transitive, and an earlier ISO date compares before a later one |
| IdeasPage.IdeaStatusColor | src/pages/IdeasPage.jsx:22-33 | The page's badge colour is one of warning, info, success or secondary |
| IdeasPage.IdeaStatusColorVersusHelper | src/pages/IdeasPage.jsx:22-33 | The page's colours match the shared helper's except for 'rejected', 'upcoming' and 'cancelled', which the page shows as 'secondary' |
| IdeasPage.FilterIdeas | src/pages/IdeasPage.jsx:35-57 | Every listed idea is stored; with all three controls empty the list is the stored list |
| IdeasPage.FilterIdeasIsOnePass | src/pages/IdeasPage.jsx:35-57 | The three successive filters are one filter on "every set control accepts the idea" |
| IdeasPage.FilteredIdeasAreTheShownOnes | src/pages/IdeasPage.jsx:35-57 | An idea is listed exactly when it is stored and its title, description or creator mentions the term (ignoring case) and its status and club equal the chosen ones; the list keeps store order |
| EventsPage.FilterEvents | src/pages/EventsPage.jsx:21-41 | Every listed event is stored; with all controls empty nothing is filtered out |
| EventsPage.FilterEventsIsOnePass | src/pages/EventsPage.jsx:21-41 | The three successive filters are one filter on "every set control accepts the event" |
| EventsPage.EventLeqIsOrder | src/pages/EventsPage.jsx:44-51 | The page's comparator is total and transitive, so the sort order is well defined |
| EventsPage.ListEvents | src/pages/EventsPage.jsx:21-51 | The listed events are a permutation of the filtered ones |
| EventsPage.ListedEventsAreOrdered | src/pages/EventsPage.jsx:21-51 | The list is a permutation of the events every control accepts; every upcoming event comes before every other; each group is in ascending date order |
| EventsPage.ListedEventsKeepTiesInOrder | src/pages/EventsPage.jsx:44-51 | Events in the same group with the same date keep their stored order |
| EventsPage.ListedEventsAreTheShownOnes | src/pages/EventsPage.jsx:21-51 | An event is listed exactly when it is stored and its name, description or venue mentions the term and its status and club equal the chosen ones |
| ClubsPage.Categories | src/pages/ClubsPage.jsx:15 | 'All' followed by every club category exactly once, and nothing else |
| ClubsPage.CategoriesInFirstUseOrder | src/pages/ClubsPage.jsx:15 | The categories after 'All' appear in the order the clubs first use them |
| ClubsPage.FilterClubs | src/pages/ClubsPage.jsx:17-33 | Every listed club is stored; an empty term and category '' or 'All' list every club |
| ClubsPage.FilterClubsIsOnePass | src/pages/ClubsPage.jsx:17-33 | The two successive filters are one filter on "both controls accept the club" |
| ClubsPage.FilteredClubsAreTheShownOnes | src/pages/ClubsPage.jsx:17-33 | A club is listed exactly when it is stored and its name or description mentions the term and, unless the category is '' or 'All', its category equals it; the list keeps store order |
| ClubsPage.OfferedCategoryIsNeverEmpty | src/pages/ClubsPage.jsx:15-31 | Choosing any offered category with an empty search lists at least one club |
| HomePage.FeaturedClubs | src/pages/HomePage.jsx:13 | The first min(3, n) clubs, in order |
| HomePage.UpcomingEventsAreTheEarliest | src/pages/HomePage.jsx:16-19 | The upcoming list holds min(3, number of upcoming events) stored upcoming events in ascending date order, and no omitted upcoming event is earlier than a shown one |
| HomePage.TopIdeas | src/pages/HomePage.jsx:22-24 | The top list has min(3, n) entries |
| HomePage.TopIdeasHaveMostVotes | src/pages/HomePage.jsx:22-24 | The top ideas are stored ideas in descending vote order, and no omitted idea has more votes than a shown one |
| HomePage.RenderTopIdeasReordersStore | src/pages/HomePage.jsx:22-24 | As written, the in-place sort shows the same top ideas but reorders the shared ideas array: [votes 0, votes 1] becomes [votes 1, votes 0] |
| HomePage.Home | src/pages/HomePage.jsx:13-24 | Each of the three home lists has at most three entries |
| DashboardPage.Refresh | src/pages/DashboardPage.jsx:18-34 | If any of the three collections is missing nothing is recomputed; otherwise the user's clubs are the first min(2, n) clubs |
| DashboardPage.UpcomingWithDatesAreTheEarliest | src/pages/DashboardPage.jsx:23-27 | At most three stored upcoming events with a date, in ascending date order, and no omitted dated upcoming event is earlier |
| DashboardPage.RecentIdeasAreTheNewest | src/pages/DashboardPage.jsx:29-33 | At most three stored ideas with a creation date, newest first, and no omitted dated idea is newer |
| DashboardPage.UpcomingAgreesWithHome | src/pages/DashboardPage.jsx:23-27 | When every upcoming event has a date, the dashboard's list equals the home page's |

## Left out

- Browser storage and JSON: the services' `getEvents`/`getIdeas`/`initialize*`, and the reads and writes of the registration and login forms. Storage is a value passed in and returned.
- Simulated latency and promises: every asynchronous result is a synchronous `Result`.
- React rendering, hooks and effect scheduling, including two state setters racing inside one render. Each operation is one atomic transition.
- Random ids and the clock. `generateId`, the ids the create operations draw and "today" are parameters.
- `isValidDate` is a parameter of the event validator, since it depends on the platform's date parser. `isFutureDate`, `formatDate`, `formatDateTime` and `isDateInPast` depend on the clock and the locale, so they are not modelled.
- `isNumber`: floating-point parsing is not modelled.
- `isEmptyObject`, `debounce` and `getQueryParams`: these are object-shape checks, timers and browser globals.
- The schema-library validation in the form components. The same rules are modelled through the validators.
- The initial load of the authentication context from storage.
- The server, routes and presentational components.
- Logo and image URLs in the sample data are left empty. They take no part in any operation.
- Case mapping is ASCII only, and whitespace is a fixed set of characters (JavaScript's white-space and line terminators).
- PageCommon.DateLeq: dates are ordered as ISO strings. An empty or malformed date, which makes the pages' `Date` subtraction NaN, is not modelled.
- ObjectHelpers.SortByKeyOrders: the order is proved only when every key is a string, or every key is a number, a boolean or null. When strings mix with other kinds the comparator can be inconsistent (for example "10" < "2" < 3 < "10"); an `undefined` key compares as neither smaller nor larger than anything. In both cases the JavaScript sort order is implementation-defined.
- ObjectHelpers.SortByKeyStable: stability is proved under the same condition on the keys as the order, for the same reason.
- ObjectHelpers.Value: a number is an integer. Fractional numbers, NaN and the infinities as key values are not modelled.
- ObjectHelpers.StringToNumber: only blank strings and optionally signed decimal integers convert to numbers. Fractions, exponents, hexadecimal, binary and octal literals and "Infinity" are read as NaN.
- ObjectHelpers.GroupBy: the accumulator is a plain object, so a key value that names an inherited `Object.prototype` member, such as "constructor", "toString" or "__proto__", finds that member and `push` throws a TypeError. The model makes an ordinary group for it.
- Helpers.GetStatusColor: the colour table is a plain object, so an inherited name such as "constructor" returns the inherited member and not 'secondary'. The model gives 'secondary' for every name not in the table.
- NumberFormat.FormatNumber: numbers are unbounded integers. JavaScript numbers lose integer precision above 2^53, and from 10^21 on `toString` switches to exponent notation (1e21 prints as "1e+21"). Neither is modelled.
- NumberFormat.FormatNumberGroupsDigits: the grouping is proved for every integer, so it also covers magnitudes of 10^21 and above, where the source prints exponent notation instead.
- Text.LexLess: JavaScript compares strings by UTF-16 code units, but a Dafny `char` is a Unicode scalar value. Outside the Basic Multilingual Plane the two orders differ: "😀" < "\uFF01" holds in JavaScript and fails here.
- Validators.MeetsMinLength: `.length` counts UTF-16 code units and the model counts characters, so text outside the Basic Multilingual Plane is measured shorter than in the source.
- Validators.MeetsMaxLength: the same character count as MeetsMinLength. maxLength("😀😀", 3) fails in the source and passes here.
- Helpers.TruncateString: `length` and `slice` count UTF-16 code units and the model counts characters, so text outside the Basic Multilingual Plane is cut at a different place.
- Helpers.FormatTime: hours outside 0 to 23 and non-digit hours are rendered but have no stated property beyond a non-empty result.
- DashboardPage.Refresh: a collection that is not an array is modelled as a missing one.

## Findings

| source | as written | input that shows it | evidently intended | confidence | as-written member | corrected member |
|---|---|---|---|---|---|---|
| src/utils/helpers.jsx:74-78 | the grouping pattern runs over the whole `toString()` output, fraction included | 0.1234 prints as "0.1,234" | group only the integer digits | high, not executed | NumberFormat.FractionDigitsGetGrouped | NumberFormat.GroupIntegerPartOfDecimal |
| src/pages/HomePage.jsx:22-24 | `ideas.sort(...)` sorts the context's ideas array in place while rendering | ideas with 0 and 1 votes are swapped in the shared array | sort a copy, leaving the store's order alone | medium, not executed | HomePage.RenderTopIdeasReordersStore | HomePage.TopIdeasHaveMostVotes |
