# MongAwards voting core in Dafny

MongAwards is a small awards-voting application. Users sign up with a single-use
secret code and vote, one vote per category, for nominees linked to that category.
An administrator takes each category through two voting phases:

- phase 1 nominates;
- after phase 1 the administrator picks up to four finalists from the phase-1 ranking;
- phase 2 decides;
- the category is then finalized and its results can be revealed on a results screen.

The application exists in three generations, and this project models the voting rules
and tallies of all three:

- A Next.js/React front end over Supabase tables: the admin panel, the voter dashboard,
  the results screen, the access-code page, sign-up/sign-in, and the image upload helpers
  and route.
- A FastAPI/SQLAlchemy backend: its CRUD layer and its authorization, registration, login,
  listing and voting endpoints.
- Two legacy vanilla-JavaScript front ends: the results aggregation and the forms of the
  admin page, and the voter page.

Every table is a sequence of rows. A page or store that changes its tables in place is
a `class` whose fields are those sequences. Each call to Supabase, SQLAlchemy or the
blob store that can fail takes a boolean (or an `Option`) for its outcome. The clock,
the random generator and the environment variables are parameters.

Modules:

| module | file | models |
|---|---|---|
| `Wrappers` | wrappers.dfy | `Option` and `Result` |
| `Text` | text.dfy | JavaScript `substring`, ASCII `toUpperCase`, decimal text and `parseInt`, `split(".").pop()` |
| `Tally` | tally.dfy | stable descending ranking (`Array.prototype.sort` with a descending comparator), sums |
| `Selection` | selection.dfy | toggling an id in a selected list |
| `Records` | records.dfy | the Supabase rows and the link resolution the pages share |
| `AdminPanel` | admin_panel.dfy | app/admin/page.tsx |
| `ResultsPage` | results_page.dfy | app/resultados/page.tsx |
| `DashboardPage` | dashboard_page.dfy | app/dashboard/page.tsx |
| `Crud` | backend_crud.dfy | backend/app/crud.py |
| `Api` | backend_api.dfy | backend/app/main.py |
| `LegacyAdmin` | legacy_admin.dfy | frontend/static/admin.js and frontend/admin.js |
| `LegacyDashboard` | legacy_dashboard.dfy | frontend/static/dashboard.js |
| `Auth` | auth.dfy | lib/auth.ts |
| `Blob` | blob.dfy | lib/blob.ts and lib/blob-client.ts |
| `UploadRoute` | upload_route.dfy | app/api/upload/route.ts |
| `AccessCodes` | access_codes.dfy | app/admin/codes/page.tsx |

Choices that follow the code:

- Supabase's `.single()` yields a row only when exactly one row matches. If two users
  share an email, `signUp`'s "user exists" check therefore lets the sign-up through, and
  `signIn` refuses both users.
- `signUp` ignores the result of the write that marks the code used.
- The React dashboard never loads vote rows for the environment administrator
  (`admin-env-id`), so its check never refuses that administrator's votes.
- The legacy voter page never loads the categories already voted in. Its voted state
  covers only the current visit.
- `selectFinalists` and `handleAssociationSubmit` delete and then insert. There is no
  transaction, so a failed insert leaves the category, or the nominee, with no links.
- The category card offers "start phase 1" again after phase 1 has finished. It also
  offers "start phase 2" without any phase 1, as soon as the category has a linked
  nominee. No "phase 1 closed" state exists.
- `create_user` compares the code with `os.getenv("SECRET_CODE")`. When that variable is
  unset, every registration is refused.
- In `delete_categoria` and `delete_indicado` an unknown id commits nothing. The bulk
  deletes issued first are rolled back, so nothing changes.
- The legacy loop treats a zero counter like a missing one; both become 0 before the
  increment.

## Model

| member | source | states |
|---|---|---|
| AdminPanel.ApplyEffect | app/admin/page.tsx:541-625 | start phase 1 writes phase 1, phase_1_active, no phase 2 and not finalized; finish phase 1 clears only phase_1_active; start phase 2 writes phase 2, phase_2_active and clears phase_1_active without touching is_finalized; finish phase 2 clears phase_2_active and sets is_finalized; every other field is kept |
| AdminPanel.Apply | app/admin/page.tsx:545-625 | no transition changes the id, name, description, banner, is_active or voting_open of the row |
| AdminPanel.OfferedKeepsAtMostOne | app/admin/page.tsx:767-797 | a transition the card offers keeps at most one of phase_1_active, phase_2_active, is_finalized set, and leaves exactly one set except after finishing phase 1 |
| AdminPanel.NothingOfferedWhenFinalized | app/admin/page.tsx:767-797 | a finalized category is offered no button |
| AdminPanel.AfterFinishPhase1 | app/admin/page.tsx:767-787 | after finishing phase 1 the card offers start phase 1 again, and start phase 2 exactly when the category has linked nominees |
| AdminPanel.OfferedRunKeepsAtMostOne | app/admin/page.tsx:767-797 | from a row with at most one flag set, any sequence of clicks on offered buttons keeps at most one flag set |
| AdminPanel.StatusOf | app/admin/page.tsx:742-747 | the badge is Finalizada when finalized, else Fase 2 Ativa when phase 2 is active, else Fase 1 Ativa when phase 1 is active, else Aguardando (the texts of 743-746 are `AdminPanel.StatusText`) |
| AdminPanel.StatusNamesTheSetFlag | app/admin/page.tsx:742-747 | under the one-flag invariant the badge names the flag that is set, and Aguardando exactly when none is |
| AdminPanel.UpdatePhase | app/admin/page.tsx:545-551 | `.update(...).eq("id", id)` applies the transition to every row with that id and to no other row, keeping the table's length |
| AdminPanel.Panel.Transit | app/admin/page.tsx:541-625 | a transition offered on the card keeps every category within the invariant; the table changes only when the write succeeds |
| AdminPanel.Panel.StartPhase1 | app/admin/page.tsx:541-561 | on success the rows with that id get the phase-1 update; no other table changes |
| AdminPanel.Panel.FinishPhase1 | app/admin/page.tsx:563-590 | nothing without confirmation; on success the rows get the finish update, and the results dialog opens for the row as loaded before the update, showing the ranked phase-1 rows |
| AdminPanel.Panel.StartPhase2 | app/admin/page.tsx:592-611 | on success the rows with that id get the phase-2 update |
| AdminPanel.Panel.FinishPhase2 | app/admin/page.tsx:613-635 | nothing without confirmation; on success the rows are finalized |
| AdminPanel.Phase1Count | app/admin/page.tsx:477-492 | the count is zero exactly when no phase_1_votes row has that nominee and category |
| AdminPanel.Phase1CountAppend | app/admin/page.tsx:477-492 | one more phase-1 row for (n, c) adds one to that count and nothing to any other |
| AdminPanel.Phase1Rows | app/admin/page.tsx:471-493 | one row per active nominee, in nominee order, each carrying that nominee's number of phase-1 votes in the category |
| AdminPanel.RankPhase1 | app/admin/page.tsx:468-496 | the dialog's rows are a permutation of the counted rows, sorted non-increasing by vote count, with ties in their original order |
| AdminPanel.Panel.LoadPhase1Results | app/admin/page.tsx:468-506 | on success the dialog shows the ranked rows for that category; on failure the dialog is unchanged |
| AdminPanel.Top4 | app/admin/page.tsx:1167-1170 | the pre-selection is the nominee ids of the first min(4, n) results, in result order |
| AdminPanel.Top4AreHighest | app/admin/page.tsx:1167-1170 | on a ranked list every pre-selected nominee has at least as many votes as every nominee left out |
| AdminPanel.TotalVotesIncrement | app/admin/page.tsx:450-452 | raising one nominee's vote_count by one raises the panel's total by exactly one |
| AdminPanel.WithoutCategory | app/admin/page.tsx:513-516 | deleting a category's links keeps exactly the links of every other category |
| AdminPanel.FinalistLinks | app/admin/page.tsx:521-527 | one link (id, category) per selected id, in selection order |
| AdminPanel.ReplaceCategoryLinksSpec | app/admin/page.tsx:508-530 | after delete-then-insert the category's links are exactly the selected ids in order (none when none was selected), and every other category keeps its links |
| AdminPanel.Panel.SelectFinalists | app/admin/page.tsx:508-539 | nothing without a dialog category or when the delete fails; a failed insert leaves the category with no links; otherwise the category's links are replaced |
| AdminPanel.AssociationLinks | app/admin/page.tsx:351-357 | one link (nominee, category) per ticked category, in order |
| AdminPanel.ReplaceNomineeLinksSpec | app/admin/page.tsx:338-370 | after delete-then-insert the nominee's links are exactly the ticked categories in order, and every other nominee keeps its links |
| AdminPanel.Panel.SubmitAssociations | app/admin/page.tsx:338-370 | a failed delete changes nothing; a failed insert leaves the nominee without links; otherwise its links are replaced |
| Records.Find | app/admin/page.tsx:581 | a row with the key, or None exactly when no row has it |
| Records.FindFirst | app/admin/page.tsx:581 | the row found is the first one with the key |
| Records.CategoryNomineesSpec | app/admin/page.tsx:432-439 | every nominee listed is loaded and linked to the category, and every link of the category whose nominee is loaded contributes that nominee |
| Records.CategoryNomineesConcat | app/dashboard/page.tsx:146-153 | the resolution goes link by link, so the nominees come in link order |
| Records.CategoryNomineesOne | app/dashboard/page.tsx:146-153 | a single link contributes its nominee exactly when it is for the category and the nominee is loaded |
| Records.CategoryNomineesCount | app/dashboard/page.tsx:146-153 | at most one nominee per link of the category, and exactly one per link when every linked nominee is loaded |
| Records.NomineeCategoriesSpec | app/admin/page.tsx:441-448 | every category listed is loaded and linked to the nominee, and every link of the nominee whose category is loaded contributes it |
| Records.NomineeCategoriesConcat | app/admin/page.tsx:441-448 | the nominee's categories come in link order |
| Records.LinksOfSpec | app/admin/page.tsx:433-434 | exactly the links of the category |
| Records.LinksOfNomineeSpec | app/admin/page.tsx:442-443 | exactly the links of the nominee |
| Records.ActiveNominees | app/admin/page.tsx:471-479 | exactly the active nominees |
| Selection.Toggle | app/admin/page.tsx:1161-1165 | toggling flips the membership of the id and keeps the membership of every other id; a new id goes at the end |
| Selection.ToggleTwice | app/resultados/page.tsx:119-123 | toggling the same id twice restores every membership, and restores the same list when the id was not selected |
| Selection.Remove | app/resultados/page.tsx:121 | the filter drops exactly the id and keeps every other id |
| Selection.SetChecked | app/admin/page.tsx:454-466 | ticking appends the category; clearing removes it; every other category keeps its membership |
| Tally.SortDescInPlace | app/admin/page.tsx:496 | the in-place sort leaves a permutation, sorted non-increasing by the key, with ties in their original order |
| Tally.RankDescIsRanking | app/resultados/page.tsx:164 | the sort of a fresh array is a stable non-increasing permutation of it |
| Tally.RankDescSum | app/resultados/page.tsx:187 | sorting does not change the sum of the counts |
| ResultsPage.ClosedCategories | app/resultados/page.tsx:69 | exactly the loaded categories that are finalized |
| ResultsPage.OpenCategories | app/resultados/page.tsx:70 | exactly the loaded categories with voting open |
| ResultsPage.ResultsPhase | app/resultados/page.tsx:140 | the deciding phase is 2 exactly when phase 2 is active or the category is finalized, and 1 otherwise |
| ResultsPage.PhaseVotes | app/resultados/page.tsx:142-154 | the count is zero exactly when no individual vote matches nominee, category and phase |
| ResultsPage.Tallied | app/resultados/page.tsx:142-161 | one entry per resolved nominee of the category, in link order, carrying exactly its votes of the phase |
| ResultsPage.CategoryResults | app/resultados/page.tsx:136-137 | an unknown category gives no nominees |
| ResultsPage.CategoryResultsSpec | app/resultados/page.tsx:135-165 | for a loaded category the list is a stable non-increasing ranking of the tallied nominees; each entry is loaded, linked to the category and carries exactly its votes of the deciding phase |
| ResultsPage.OtherVotesIgnored | app/resultados/page.tsx:140-154 | a vote of another phase or another category never changes the list |
| ResultsPage.TotalIsSumOfCounts | app/resultados/page.tsx:187 | the category total is the sum of the listed nominees' counts |
| ResultsPage.Percentage | app/resultados/page.tsx:254-255 | 0 when the total is 0; otherwise votes / total × 100, between 0 and 100 when votes ≤ total |
| ResultsPage.NextIndex | app/resultados/page.tsx:125-129 | min(i + 1, len − 1): stays in range, advances except at the last index |
| ResultsPage.PrevIndex | app/resultados/page.tsx:131-133 | max(i − 1, 0): stays non-negative, steps back except at 0 |
| ResultsPage.NavigationInverse | app/resultados/page.tsx:125-133 | next then previous, and previous then next, return to the index away from the ends |
| DashboardPage.VotesOfUser | app/dashboard/page.tsx:78-90 | exactly the user_votes rows of the user |
| DashboardPage.HasUserVoted | app/dashboard/page.tsx:155-157 | true exactly when some loaded row is for the category |
| DashboardPage.HasVotedIffRow | app/dashboard/page.tsx:155-157 | with the user's rows loaded, the check holds exactly when the table has the row (user, category) |
| DashboardPage.SetVoteCount | app/dashboard/page.tsx:119-127 | `.update({vote_count}).eq("id", n)` changes the count of the rows with that id and of no other row |
| DashboardPage.IncrementAddsOne | app/dashboard/page.tsx:119-127 | with unique ids, writing the loaded count plus one changes only that nominee and adds exactly one vote to the total |
| DashboardPage.AppendKeepsOnePerCategory | app/dashboard/page.tsx:105-116 | adding a row the table does not hold keeps at most one row per user and category |
| DashboardPage.AdminNeverRefused | app/dashboard/page.tsx:78-90 | the environment administrator's rows are never loaded, so the page never refuses that administrator's votes |
| DashboardPage.Dashboard.LoadVotes | app/dashboard/page.tsx:78-90 | a successful load makes the page's rows the table's rows of the user |
| DashboardPage.Dashboard.HandleVote | app/dashboard/page.tsx:98-139 | a user who has voted in the category changes nothing; otherwise one row (user, category) is added, the loaded nominee's count goes up by one while other nominees stay unchanged, an unloaded nominee changes no count, one row per user and category is kept, and after a completed vote and reload no card of the category offers the vote button to a user other than the environment administrator |
| DashboardPage.ShowVoteButton | app/dashboard/page.tsx:263 | the button is shown exactly when the category is open and no loaded row is for it |
| DashboardPage.VoteHidesButton | app/dashboard/page.tsx:263 | once an ordinary user's row for the category is in the table and reloaded, the button is hidden on every card of that category |
| Crud.FirstIndex | backend/app/crud.py:36 | the position of the row `.first()` returns, or None exactly when no row has the id |
| Crud.WithoutSpec | backend/app/crud.py:48-49 | a bulk delete keeps exactly the rows whose key differs, and a key no row has deletes nothing |
| Crud.WithoutKeepsUnique | backend/app/crud.py:53 | deleting the rows with one key from a table whose keys are distinct leaves the keys distinct |
| Crud.Page | backend/app/crud.py:26 | `offset(skip).limit(limit)`: at most limit rows, the ones after the first skip |
| Crud.PagesCoverTable | backend/app/crud.py:26 | the first skip rows followed by the next page are the table's prefix |
| Crud.GetCategorias | backend/app/crud.py:22-26 | at most limit rows, all from the table, and all with the requested is_active when given; without a status the page of the whole table, with one the page of the rows of that status |
| Crud.FilteredPageComplete | backend/app/crud.py:22-26 | a first page at least as long as the table holds exactly the categories of the requested status |
| Crud.OfStatusSpec | backend/app/crud.py:24-25 | exactly the categories with that is_active |
| Crud.PatchCategoria | backend/app/crud.py:37-41 | a field given as None keeps its value; the banner changes only when a banner path is given; the id and is_active are kept |
| Crud.PatchCategoriaLaws | backend/app/crud.py:35-43 | an empty update changes nothing, applying an update twice equals applying it once, and a full update writes every field |
| Crud.PatchIndicado | backend/app/crud.py:80-83 | the same partial-update rule for nome and foto |
| Crud.PatchIndicadoLaws | backend/app/crud.py:78-85 | an empty update changes nothing, and the update is idempotent |
| Crud.GetVotosByUserAndCategory | backend/app/crud.py:128-129 | a row is returned exactly when a VotosUsuario row for that user and category exists |
| Crud.MaxUserId | backend/app/crud.py:11-17 | no user's id exceeds it, so one more than it is a fresh id |
| Crud.AppendNewVoteKeepsOne | backend/app/crud.py:116-126 | adding a VotosUsuario row the table does not hold keeps one row per user and category |
| Crud.Database.CreateUser | backend/app/crud.py:11-17 | appends one non-admin user with the hashed password and a fresh id; nothing else changes |
| Crud.Database.UpdateCategoria | backend/app/crud.py:35-43 | an unknown id returns None and changes nothing; otherwise the first row with the id is patched in place |
| Crud.Database.UpdateCategoriaStatus | backend/app/crud.py:57-63 | an unknown id returns None; otherwise only is_active of that row changes |
| Crud.Database.UpdateIndicado | backend/app/crud.py:78-85 | an unknown id returns None; otherwise the row is patched in place |
| Crud.Database.DeleteCategoria | backend/app/crud.py:45-55 | an unknown id changes nothing; otherwise the category and every ballot and link for it go, other rows are kept, and the VotosUsuario rows are untouched |
| Crud.Database.DeleteIndicado | backend/app/crud.py:87-97 | an unknown id changes nothing; otherwise the nominee and every ballot and link for it go and other rows are kept |
| Crud.Database.CreateVoto | backend/app/crud.py:116-126 | appends exactly one ballot (nominee, category) with no user, and one VotosUsuario row (category, user) |
| Api.UserByNickname | backend/app/crud.py:8-9 | a user with that nickname, or None exactly when no user has it |
| Api.CurrentUser | backend/app/main.py:27-35 | 401 exactly when the token is no user's nickname; otherwise that user |
| Api.CurrentAdmin | backend/app/main.py:37-40 | the 401 of authentication first, then 403 for a non-admin; success exactly for an admin |
| Api.Login | backend/app/main.py:52-61 | success exactly when the nickname exists and the password verifies; the token is the nickname; both failures are the same 401 |
| Api.LoginTokenAuthenticates | backend/app/main.py:27-61 | the token of a successful login authenticates as the user who logged in |
| Api.ReadCategorias | backend/app/main.py:64-70 | authentication errors first; an admin gets a page of every category, anyone else the same page of the active categories |
| Api.NonAdminSeesActive | backend/app/main.py:68-69 | a caller who is not an admin sees, on a long enough first page, exactly the active categories |
| Api.CreateUser | backend/app/main.py:42-49 | a code other than the configured one, or any code when none is configured, is refused with 400 before any lookup; a taken nickname gets 400; otherwise one non-admin user is added |
| Api.RegistrationKeepsNicknamesUnique | backend/app/main.py:45-49 | registering only unknown nicknames keeps nicknames unique |
| Api.UpdateCategoriaStatus | backend/app/main.py:93-103 | the admin dependency's error first, then 404 for an unknown category, otherwise Ok with the first row of that id, whose is_active alone changes, written back in place and nothing else changed |
| Api.Votar | backend/app/main.py:140-145 | authentication error first; 400 and no change when the user has a VotosUsuario row for the category; otherwise exactly one ballot and one VotosUsuario row are added; one row per user and category is kept |
| LegacyAdmin.CountPair | frontend/static/admin.js:124-132 | zero exactly when no result row has that category and nominee |
| LegacyAdmin.CountPairAppend | frontend/admin.js:106-114 | a result row adds one to its own pair's count and nothing to any other |
| LegacyAdmin.StepKeeps | frontend/static/admin.js:125-131 | one iteration keeps every counter equal to its pair's count so far, and keys only pairs seen so far |
| LegacyAdmin.StepTotal | frontend/static/admin.js:131 | one iteration adds exactly one to the sum of all counters |
| LegacyAdmin.LoopStep | frontend/static/admin.js:125-131 | if the counters are those of the first i rows and sum to i, one iteration makes them those of the first i + 1 rows, summing to i + 1 |
| LegacyAdmin.AggregateResults | frontend/static/admin.js:122-132 | after the loop, counts[c][n] is the number of rows with category c and nominee n, exactly the pairs with at least one row are keys, and all counters sum to the number of rows (same loop at frontend/admin.js:104-114) |
| LegacyAdmin.NameMap | frontend/static/admin.js:119 | every row's id is a key, and each key maps to the name of a row with that id; the same map is built over the nominees at frontend/admin.js:102 |
| LegacyAdmin.LabelOfId | frontend/static/admin.js:137-144 | a category or nominee with a non-empty name is labelled by it, and otherwise by "Categoria {id}" or "Indicado {id}" (same code at frontend/admin.js:119-126) |
| LegacyAdmin.LinkFormIds | frontend/static/admin.js:457-463 | a link is sent exactly when both parsed ids are numbers other than 0, and it carries those ids (same check at frontend/admin.js:268-274) |
| LegacyAdmin.LinkFormChoice | frontend/admin.js:268-274 | two non-zero ids send exactly that link; an empty or "0" choice sends nothing |
| LegacyAdmin.SubmitRequest | frontend/static/admin.js:415-421 | a PUT to the edited id exactly when editingCategoryId is set and non-zero, else a POST |
| LegacyAdmin.CategoryForm.Submit | frontend/static/admin.js:400-425 | the request follows the edited id, and a successful request resets editingCategoryId to null |
| LegacyAdmin.CategoryForm.Reset | frontend/static/admin.js:241-250 | editingCategoryId becomes null |
| LegacyAdmin.CategoryForm.StartEdit | frontend/static/admin.js:202 | editingCategoryId becomes the edited category's id |
| LegacyDashboard.NomineesForSpec | frontend/static/dashboard.js:92-94 | every nominee shown is loaded and linked to the category, and every link of the category whose nominee is loaded contributes it |
| LegacyDashboard.OtherLinkIgnored | frontend/static/dashboard.js:92-94 | a link of another category never changes what a category shows |
| LegacyDashboard.Page.RenderCategory | frontend/static/dashboard.js:74-124 | an out-of-range index changes nothing; an in-range index becomes current, shows its linked nominees, disables voting exactly when the category was voted in, and disables prev at 0 and next at the last index |
| LegacyDashboard.Page.LoadAllData | frontend/static/dashboard.js:49-72 | each fetch is stored as it arrives; after all three only active categories are kept, in order, and the current index is shown, or the buttons are disabled when no category is left; a failed fetch, or a current index out of range, leaves the display as it was |
| LegacyDashboard.Page.SubmitVote | frontend/static/dashboard.js:126-144 | no selected nominee sends nothing and changes nothing, and a failed send changes neither the voted list nor the display; a successful vote appends the category to the voted list and disables voting in it |
| LegacyDashboard.Page.Prev | frontend/static/dashboard.js:147 | shows the previous category and keeps the tables; from the first, the display stays as it was |
| LegacyDashboard.Page.Next | frontend/static/dashboard.js:148 | shows the next category and keeps the tables; from the last, the display stays as it was |
| Auth.UnusedWithCode | lib/auth.ts:8-13 | exactly the unused code rows with that code |
| Auth.UsersWithEmail | lib/auth.ts:20 | exactly the users with that email |
| Auth.Single | lib/auth.ts:13 | a row exactly when one row matches |
| Auth.MarkUsed | lib/auth.ts:38 | the rows with the code's id become used by the new user; every other row is kept |
| Auth.MarkedCodeIsSpent | lib/auth.ts:38 | once the matched code is marked, no unused row with that code is left, so the code cannot let a second sign-up through |
| Auth.AuthStore.SignUp | lib/auth.ts:5-44 | checks in order: an unknown or used code, then an existing user, then a failed insert; each is refused and leaves both tables unchanged; on success one non-admin user is appended and the code is marked used by that user |
| Auth.SignIn | lib/auth.ts:46-77 | the environment's credentials sign in as the admin with no lookup, and only they give an admin session; otherwise success exactly when one user has the email and the password matches; every failure has the same message |
| Auth.SignUpThenSignIn | lib/auth.ts:5-77 | a new user can sign in with the email and password of the sign-up |
| Auth.SignedUpUserIsNoAdmin | lib/auth.ts:27-29 | a signed-up user signs in without admin rights |
| AccessCodes.CountUsed | app/admin/codes/page.tsx:143 | zero exactly when no code is used, and the total exactly when every code is |
| AccessCodes.UsageStats | app/admin/codes/page.tsx:141-146 | used plus available is the total, and available is the number of unused codes |
| AccessCodes.MarkMovesOne | app/admin/codes/page.tsx:141-146 | with unique ids, a sign-up that marks one unused code raises used by exactly one |
| AccessCodes.GenerateRandomCode | app/admin/codes/page.tsx:77-82 | "MONGA", the year, "_" and characters 2 to 8 of the base-36 text upper-cased, with no lower-case letter |
| AccessCodes.TypedCode | app/admin/codes/page.tsx:303 | each typed character upper-cased in place (ASCII letters only): same length, no ASCII lower-case letter |
| AccessCodes.CodeToCreate | app/admin/codes/page.tsx:89 | the typed code when non-empty, otherwise the generated one |
| AccessCodes.CreatedCodeIsUpperCase | app/admin/codes/page.tsx:77-303 | the created code never has a lower-case letter, and upper-casing is idempotent |
| AccessCodes.SignedUpCodeNotDeletable | app/admin/codes/page.tsx:267 | the Delete button is offered exactly for unused codes, so a code that a sign-up marked is no longer deletable |
| AccessCodes.CodesPage.HandleCreateCode | app/admin/codes/page.tsx:84-111 | sends the code to create; success closes the dialog, clears the field and reloads; a duplicate (23505) or another failure only alerts and changes nothing |
| AccessCodes.CodesPage.HandleDeleteCode | app/admin/codes/page.tsx:113-129 | deletes exactly when confirmed and successful, and then reloads; otherwise the list is kept |
| Blob.ValidateImageFile | lib/blob-client.ts:44-58 | a type outside the four allowed gives the type error, checked first; an allowed type over 5242880 bytes gives the size error; null exactly when the type is allowed and the size is at most 5242880 (same code at lib/blob.ts:45-59) |
| Blob.UploadName | lib/blob.ts:13-15 | the name starts with folder + "/" and ends with "." + the last dot segment of the file name |
| Blob.DistinctTimestampsDistinctNames | lib/blob.ts:12-15 | two uploads at different non-negative timestamps get different names, whatever the random text and file names |
| Blob.UploadNameKeepsExtension | lib/blob.ts:14-15 | the stored name's last dot segment is the file's extension |
| Blob.UploadImage | lib/blob.ts:3-27 | no token is an error; every error is the one upload message; success exactly with a token and a blob returned for the unique name |
| Blob.DeleteRequest | lib/blob.ts:29-43 | no token means no call; with a token the URL is deleted, and the call resolves either way |
| Text.LastDotSegment | lib/blob.ts:14 | the text after the last dot, or the whole name when it has no dot |
| Text.DecimalRoundTrip | frontend/static/admin.js:137 | parseInt reads an id's decimal text back as the id |
| Text.ToUpper | app/admin/codes/page.tsx:80 | same length, each ASCII letter upper-cased, every other character kept, no ASCII lower-case letter left |
| UploadRoute.Post | app/api/upload/route.ts:4-39 | in order: a missing filename or folder gives 400, then a folder other than categories or nominees gives 400, then a missing body gives 400; the upload is tried exactly when all pass, under the unique name, and its failure is 500 |
| UploadRoute.StoredName | app/api/upload/route.ts:25-27 | the unique name starts with the folder and "/" and keeps the file name's extension |

## Left out

- The Supabase client, SQLAlchemy sessions, Vercel Blob `put`/`del` and `fetch` are foreign services. Each call is a parameter saying what it returned, or whether it succeeded.
- React rendering, JSX, DOM updates, CSS, alerts and confirms, router navigation and localStorage are UI only. Confirmations are boolean parameters.
- components/, app/page.tsx and frontend/static/app.js are UI or I/O only and are not part of this model.
- lib/supabase.ts, backend/app/models.py and backend/app/schemas.py only declare shapes; they are used for the datatypes. backend/create_admin.py is a one-off script and is not part of this model.
- Floating point: the percentage is an exact real. `toFixed` and the `Math.max(percentage, 2)` bar width are left out.
- `localeCompare` ordering of names is left out.
- Date.now, Math.random and getFullYear are parameters (`timestamp`, `random36`, `year`). `random36` is the base-36 text of the random number.
- bcrypt/passlib hashing is left out. `Api.Login` takes the verify predicate as a parameter, and `Crud.Database.CreateUser` receives the hash.
- The banner and photo file writes of the create and update endpoints are left out.
- Concurrency: the check-then-insert paths in `votar`, `handleVote` and `signUp` are modelled one call at a time. No claim is made about races.
- A failed commit is not modelled; every SQLAlchemy write succeeds.
- Negative `skip` or `limit` is left out, because its effect depends on the database. `Crud.Page` takes naturals.
- The ids of link rows and vote rows, and `created_at` ordering, are left out; rows are kept in insertion order.
- Phase-2 vote casting is not modelled, because no modelled code casts it: the nomination cap, the one-final-vote rule, the finalist gate and the voting-progress counters.
- The tab wiring at app/resultados/page.tsx:426 and :472 is left out.
- The results screen's overall vote count (`individualVotes.length`) is left out.
- The legacy admin page calls PUT, GET and DELETE on `/categorias/{id}`, which backend/app/main.py does not define. Only the request the form chooses is modelled (`LegacyAdmin.SubmitRequest`).
- The category edit form of the React admin page can write the phase flags directly. The one-flag invariant covers only the phase buttons.
- Clipboard copying on the access-code page is left out, and so is the display of the code list.
- AdminPanel.Panel.Transit: the button guards are preconditions, as the card enforces them. The write itself accepts any row.
- AdminPanel.TotalVotes: `getTotalVotes` sums JavaScript numbers, modelled as unbounded integers.
- Crud.Database.CreateUser: the database's autoincrement is modelled as one more than the largest id, which is fresh but may differ from the sequence's next value.
- Text.ToUpper: only ASCII 'a'..'z' is upper-cased. JavaScript's `toUpperCase` also upper-cases other letters ("ç" becomes "Ç") and can lengthen the text ("ß" becomes "SS"); the model keeps such characters as they are and keeps the length. The generated codes are ASCII, so `AccessCodes.GenerateRandomCode` is exact.
- AccessCodes.TypedCode: a typed code with non-ASCII letters keeps them as typed, and its length is kept where JavaScript can lengthen it, as for `Text.ToUpper`.
- LegacyAdmin.LinkFormIds: `parseInt`'s prefix parsing is not modelled. Text other than an optional "-" and digits is None here, while `parseInt` reads a leading number ("12abc" is 12, " 7" and "+7" are 7, "0x1A" is 26). The select options hold only decimal ids and "", on which the two agree.
- LegacyAdmin.AggregateResults: object keys are modelled as integer map keys. JavaScript's string-key conversion is covered only by `Text.DecimalRoundTrip` for the labels. The order of keys during display is left out.
