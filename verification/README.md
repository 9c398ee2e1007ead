# blogapp core, modelled in Dafny

A model of the decision logic of a Flask blog application: the subscriber
address check, the two-step newsletter-subscription workflow, password reset,
the account forms, the three administrator gates, the user-table operations,
the newsletter broadcast, the search dispatch and the naming and removal of
stored uploads. Every operation is a pure function over immutable values
(tables are sequences of rows, the outbox is a sequence of mails), except the
broadcast, which is a method with a loop.

Modules, one per concern:

- `Wrappers`: `Option`, `Result`.
- `Sequences`: first/last index and first-match search, with their contracts.
- `Entities`: users, posts, subscribers, newsletters, mails, stored files, actors.
- `SubscriberEmail`: the address regex as a language (`RegexMatches`) and a
  character-level recogniser (`ValidateSubscriberEmail`) proved equal to it.
- `SignedTokens`: an abstract timed serializer (claims, issue time, signing key).
- `StoredFiles`: `os.path.splitext`, the random-stem naming of uploads, the
  target directory and size, and which stored file a deletion removes.
- `Authorization`: the posts gate and the flag-only gate of users and newsletters.
- `UserTable`: lookups, the uniqueness invariant, row updates, flag switching.
- `AccountForms`: the validators of the registration, update, login and reset forms.
- `AccountRoutes`: register, account update, login, account deletion, admin status.
- `PasswordReset`: reset request and reset redemption.
- `Subscription`: subscription request, redemption, subscriber deletion, invariant.
- `NewsletterBroadcast`: sending a newsletter to every subscriber.
- `Search`: the filter `home` and `search` list posts with.

External collaborators are parameters: the clock (`now`), the secret key,
the random file stem (`secrets.token_hex(8)`), password hashing and checking,
the library `Email()` syntax check, and the minting and verification of reset
tokens (the user model's `get_reset_token` and `verify_reset_token` are not
part of this model).

## Model

| member | source | states |
|---|---|---|
| SubscriberEmail.RecognizerMatchesRegex | blogapp/users/utils.py:78-83 | the recogniser accepts a string exactly when the regex fully matches it, both directions |
| SubscriberEmail.AcceptedHasSingleAt | blogapp/users/utils.py:79-83 | an accepted address contains exactly one `@` |
| SubscriberEmail.AcceptedLocalPart | blogapp/users/utils.py:79 | the local part is non-empty over `[A-Za-z0-9._%+-]` and starts with a letter, digit or `_` (leading `\b`) |
| SubscriberEmail.AcceptedDomainPart | blogapp/users/utils.py:79 | the domain between `@` and the last dot is non-empty over `[A-Za-z0-9.-]` |
| SubscriberEmail.AcceptedTopLevelPart | blogapp/users/utils.py:79 | the text after the last dot has 2 to 7 characters from letters or `|` and ends in a letter (trailing `\b`) |
| SubscriberEmail.ShapeAccepted | blogapp/users/utils.py:79-83 | conversely every string `L@D.T` of that shape is accepted |
| SubscriberEmail.PipeAdmittedInTopLevelPart | blogapp/users/utils.py:79 | `bob@example.c|m` matches: `|` is a literal member of the top-level class |
| SubscriberEmail.TrailingPipeRejected | blogapp/users/utils.py:79 | `bob@example.co|` does not match: the trailing `\b` needs a word character |
| SubscriberEmail.LeadingDotRejected | blogapp/users/utils.py:79 | `.bob@example.com` does not match: the leading `\b` needs a word character |
| SubscriberEmail.DottedDomainAccepted | blogapp/users/utils.py:79 | the domain may contain dots |
| SubscriberEmail.LongTopLevelRejected | blogapp/users/utils.py:79 | an eight-letter top-level part exceeds `{2,7}` |
| SignedTokens.Loads | blogapp/users/utils.py:87-89 | loading succeeds iff the signature verifies under the key and the age is at most the maximum; a bad signature and an expired one are each reported as such |
| SignedTokens.MintSubscribeToken | blogapp/users/utils.py:67-68 | the subscription token carries `{'email': email}` and the issue time, signed with the application's key |
| SignedTokens.VerifySubscribeToken | blogapp/users/utils.py:86-92 | yields the embedded address iff key matches, age is at most 180 s and the payload has an `email` field; `None` on every failure |
| SignedTokens.SubscribeTokenRoundTrip | blogapp/users/utils.py:66-92 | a minted token verifies back to its address within 180 s |
| SignedTokens.SubscribeTokenExpires | blogapp/users/utils.py:86-92 | after 180 s the token is rejected as expired |
| SignedTokens.ForeignKeyRejected | blogapp/users/utils.py:86-92 | a token signed with another key never verifies |
| StoredFiles.Extension | blogapp/users/utils.py:27 | the extension is a suffix of the name: a dot followed by no dot and no `/`; it is non-empty exactly when the last dot has a non-dot character before it in the same path component |
| StoredFiles.StoredName | blogapp/posts/utils.py:44-46 | the stored name is the 16-digit random stem followed by the upload's extension, and contains no `/` |
| StoredFiles.SavePicture | blogapp/posts/utils.py:42-61 | "profile" goes to the profile directory at 250x250, anything else to the post directory at 1000x800 |
| StoredFiles.DeletePicture | blogapp/users/utils.py:46-52 | a file is removed iff the kind is "profile"/"post" and the name is not that kind's default; it is removed from that kind's directory |
| StoredFiles.SaveNewsletterFile | blogapp/newsletters/utils.py:23-32 | newsletter uploads go to the newsletter directory under stem plus extension |
| StoredFiles.DeleteNewsletterFile | blogapp/newsletters/utils.py:35-37 | the named newsletter file is always removed |
| StoredFiles.StoredNameKeepsExtension | blogapp/users/utils.py:26-28 | splitting the stored name gives back the upload's extension |
| StoredFiles.SimpleNameExtension | blogapp/users/utils.py:27 | a plain `name.ext` upload keeps `.ext` |
| StoredFiles.LeadingDotIsNoExtension | blogapp/users/utils.py:27 | a hidden-file name such as `.bashrc` has no extension |
| Authorization.PostsAdminRequired | blogapp/posts/utils.py:10-20 | 403 iff the visitor is anonymous or the flag is `False`; otherwise the handler's response for the original arguments, unchanged |
| Authorization.FlagOnlyAdminRequired | blogapp/users/utils.py:13-21 | a crash iff anonymous, 403 iff the flag is `False`, otherwise the handler's response unchanged (`None` passes) |
| Authorization.GatesAgreeOnLoggedInUsers | blogapp/posts/utils.py:14-17 | for a logged-in user both gates give the same outcome |
| Authorization.GatesDifferOnAnonymous | blogapp/newsletters/utils.py:12-21 | for an anonymous visitor the flag-only gate crashes where the posts gate answers 403 |
| Authorization.PostsGateRefusesInsteadOfCrashing | blogapp/posts/utils.py:10-20 | the posts decorator is the flag-only one with a 403 for anonymous visitors in front, so it never crashes where the other does |
| Authorization.UnsetFlagPasses | blogapp/users/utils.py:17 | a user whose flag is `None` passes both gates |
| UserTable.ById | blogapp/users/routes.py:170 | the row with the id, present iff some row has it |
| UserTable.ByEmail | blogapp/users/routes.py:57 | the first row holding the address (no earlier row holds it), present iff some row holds it |
| UserTable.ByUsername | blogapp/users/forms.py:20 | the first row holding the username (no earlier row holds it), present iff some row holds it |
| UserTable.NextId | blogapp/users/routes.py:40-47 | a new row's id is not in use |
| UserTable.RemoveRow | blogapp/users/routes.py:176-177 | the remaining rows are exactly those with another id |
| UserTable.RemoveRowPreservesWellFormed | blogapp/users/routes.py:176-177 | removing a row keeps ids, usernames and emails unique |
| UserTable.SetAdmin | blogapp/users/routes.py:200-216 | 404 iff the id is absent; otherwise only the target's flag changes, to the given value |
| UserTable.SetAdminPreservesWellFormed | blogapp/users/routes.py:200-216 | switching a flag keeps the table's uniqueness |
| UserTable.SetAdminIdempotent | blogapp/users/routes.py:200-216 | setting the same flag twice equals setting it once |
| UserTable.UpdateRowPreservesWellFormed | blogapp/users/routes.py:23-25 | replacing one row by one with the same id and no username or email of another row keeps uniqueness |
| AccountForms.RegistrationErrors | blogapp/users/forms.py:10-27 | valid iff username length 4..20 and unused, address present, well formed and unused, password length 8..16, confirmation equal; taken-errors iff the value is held |
| AccountForms.UpdateAccountErrors | blogapp/users/forms.py:37-53 | valid iff username length 4..20, address well formed, and each value either the user's own or unused |
| AccountForms.RequestResetErrors | blogapp/users/forms.py:56-63 | valid iff the address is present, well formed and belongs to an account |
| AccountForms.ResetPasswordErrors | blogapp/users/forms.py:66-70 | valid iff the password has 8..16 characters and the confirmation equals it |
| AccountForms.LoginErrors | blogapp/users/forms.py:30-34 | valid iff the address is present and well formed and the password non-empty |
| AccountForms.OwnValuesNeverTaken | blogapp/users/forms.py:43-53 | resubmitting one's own username and email is never reported as taken |
| AccountForms.OtherUsersValuesRejected | blogapp/users/forms.py:44-53 | changing to another user's username or email is rejected |
| AccountRoutes.Register | blogapp/users/routes.py:35-50 | a valid form appends one row with a fresh id, the hashed password and the default picture; otherwise nothing changes |
| AccountRoutes.RegisterPreservesWellFormed | blogapp/users/forms.py:19-27 | registration keeps ids, usernames and emails unique |
| AccountRoutes.NewPicture | blogapp/users/routes.py:19-22 | an uploaded picture yields the random stem plus the upload's extension; no upload yields none |
| AccountRoutes.UpdateAccount | blogapp/users/routes.py:14-32 | a logged-in user's account is updated iff the form is valid, else the form's errors are reported and nothing changes; on update only that user's username, email and (with an upload) picture change, and the old non-default picture is removed |
| AccountRoutes.UpdateAccountPreservesWellFormed | blogapp/users/forms.py:43-53 | an account update keeps the table's uniqueness |
| AccountRoutes.Login | blogapp/users/routes.py:53-63 | logged in iff the form is valid, an account holds the address and the password checks against its hash |
| AccountRoutes.PostPictureRemovals | blogapp/users/routes.py:173-174 | exactly the non-default pictures of the user's posts are removed |
| AccountRoutes.DeleteUser | blogapp/users/routes.py:163-185 | any logged-in actor removes an existing target; reported as another's deletion iff actor and target differ, otherwise self-deletion |
| AccountRoutes.DeleteNeedsNoAdmin | blogapp/users/routes.py:163-165 | whatever the actor's flag, an existing target is deleted |
| AccountRoutes.DeleteKeepsDefaultPictures | blogapp/users/routes.py:170-174 | deletion never removes a default picture |
| AccountRoutes.NonAdminDeletesAnotherUser | blogapp/users/routes.py:163-185 | a user whose flag is `False` deletes another user's account |
| AccountRoutes.DeleteUserAdminChecked | blogapp/users/routes.py:163-185 | with the check, administrators being those the admin decorators let through (flag not `False`): 403 exactly when a user whose flag is `False` targets someone else, with nothing removed; a row disappears only for its owner or an administrator; self-deletion still works |
| AccountRoutes.AdminCheckChangesOnlyForeignDeletes | blogapp/users/routes.py:163-168 | the checked route behaves like the route exactly when the visitor is anonymous, deletes themselves, or has a flag other than `False` |
| AccountRoutes.ChangeAdminStatus | blogapp/users/routes.py:197-216 | behind the flag-only gate, the handler's effect is the flag switch of the target |
| AccountRoutes.MakeUserAdmin | blogapp/users/routes.py:197-205 | a crash iff anonymous, 403 iff the flag is `False`, 404 iff the target is missing; any other logged-in user succeeds, and then only the target's flag changes, to `True` |
| AccountRoutes.MakeAdminUser | blogapp/users/routes.py:208-216 | a crash iff anonymous, 403 iff the flag is `False`, 404 iff the target is missing; any other logged-in user succeeds, and then only the target's flag changes, to `False` |
| AccountRoutes.NonAdminCannotChangeStatus | blogapp/users/routes.py:197-200 | a user whose flag is `False` gets 403 and no flag changes |
| AccountRoutes.ChangeAdminStatusIdempotent | blogapp/users/routes.py:197-216 | repeating a status change leaves the same table |
| PasswordReset.ResetMail | blogapp/users/utils.py:55-63 | the reset mail goes to the user's address alone and carries the user's token |
| PasswordReset.ResetRequest | blogapp/users/routes.py:73-81 | a valid form sends one reset mail to the account holding the address; the no-user crash never happens |
| PasswordReset.ResetToken | blogapp/users/routes.py:84-97 | no change when the token names no user; otherwise, on a valid form, only that user's hash becomes the hash of the new password |
| PasswordReset.ResetTokenReplayable | blogapp/users/routes.py:86-94 | a still-valid token can be redeemed again |
| PasswordReset.ResetTokenPreservesWellFormed | blogapp/users/routes.py:92-94 | a reset keeps the table's uniqueness |
| PasswordReset.ResetThenLogin | blogapp/users/routes.py:84-97 | after a reset to `p` the user logs in with `p` and with no other password |
| Subscription.CountAtMostOne | blogapp/users/routes.py:119-123 | without duplicates an address is held by at most one subscriber |
| Subscription.ConfirmationMail | blogapp/users/utils.py:66-75 | the confirmation goes to the address alone with a token that verifies back to it |
| Subscription.SubscribeRequest | blogapp/users/routes.py:100-113 | invalid or already-subscribed addresses change nothing; a valid new one gets exactly one confirmation and the subscribers stay as they were |
| Subscription.SubscribeToken | blogapp/users/routes.py:116-131 | exactly one subscriber with the token's address is added iff the token verifies and the address is absent; otherwise nothing changes |
| Subscription.SubscribeTokenKeepsNoDuplicates | blogapp/users/routes.py:119-129 | redemption never creates a duplicate subscriber |
| Subscription.SecondRedemptionRejected | blogapp/users/routes.py:119-123 | redeeming the same token again is rejected and changes nothing |
| Subscription.RequestThenRedeem | blogapp/users/routes.py:100-131 | request then redemption within 180 s leaves exactly one subscriber with the address; a replay is rejected |
| Subscription.SubscribeRequestKeepsInvariant | blogapp/users/routes.py:100-113 | requests keep: no duplicates, every subscriber and every mailed token address passes the validator |
| Subscription.SubscribeTokenKeepsInvariant | blogapp/users/routes.py:116-131 | redemptions keep that invariant when keyed tokens can only be mailed ones |
| Subscription.DeleteSubscriber | blogapp/users/routes.py:143-151 | behind the flag-only gate: 404 iff the id is absent, otherwise exactly that row is removed |
| NewsletterBroadcast.NewsletterAttachment | blogapp/newsletters/utils.py:50-53 | the attachment is the stored newsletter file under its stored name, content type `<name>/pdf` |
| NewsletterBroadcast.SendNewsletterEmail | blogapp/newsletters/utils.py:40-58 | false, no messages and an untouched newsletter without subscribers; otherwise one message per subscriber with subject, text and file, then `date_email` set and true; every subscriber is reached and nobody else |
| NewsletterBroadcast.BroadcastReachesEverySubscriber | blogapp/newsletters/utils.py:43-54 | every subscriber gets a message and every message goes to a subscriber |
| Search.Home | blogapp/main/routes.py:26-31 | all posts, newest first, three per page |
| Search.SearchListing | blogapp/main/routes.py:55-73 | search text beats everything; then category, archive year, author; all posts when neither is given; always newest first, three per page |
| Search.HighestPrecedenceDecides | blogapp/main/routes.py:62-71 | with search text the parameter is irrelevant; an empty search box lists the same as a missing one |
| Search.ListingKeepsDecidingArgument | blogapp/main/routes.py:62-71 | the listing selects on exactly the deciding argument, so distinct non-empty parameters give distinct listings |
| Search.CategoriesAndArchivesDisjoint | blogapp/main/routes.py:7-21 | no parameter is both a category and an archive year |
| Search.CategoryNeverAnAuthor | blogapp/main/routes.py:62-70 | without search text a category parameter filters by category |

## Left out

- Flask routing, templates, flash messages and redirects: each handler returns only the kind of outcome.
- The Flask-WTF CSRF token: every modelled submission is assumed to carry a valid one. Without it `validate_on_submit` fails and nothing changes. So the "valid iff" contracts of the forms and routes hold only for submissions with a valid token.
- GET requests that render a form: every handler is modelled as a form submission.
- Post and newsletter columns the modelled operations never read (ids, titles, content, category, dates, authors): entities keep only the fields the core reads.
- SQLAlchemy sessions, pagination and cascades: tables are sequences of rows; deleting a user does not touch the posts table.
- The missing `email` form field of `subscribe_request`: the address is a string argument.
- Signing, serialisation and time-stamp encoding of tokens: a token records its claims, issue second and key.
- SignedTokens.Loads: a token whose issue time lies in the future is accepted; the library's own handling of that case is not part of this model.
- SignedTokens.VerifySubscribeToken: inherits that acceptance of a future-dated token from `Loads`, and so does `Subscription.SubscribeToken`.
- Password hashing and checking, `Email()`, `FileAllowed` and the HTML sanitizer configuration: library behaviour, passed as parameters or omitted.
- The user model's reset-token functions are not part of this model: they are the `mint` and `verify` parameters.
- The administrator flag: the user model shown declares no `admin` column at all. That the flag is nullable (`Option<bool>`) is inferred from the decorators' `is False` test, and `Register` takes the initial flag as a parameter.
- Mail transport, file-system writes and removals, image resizing: only the recipients, paths and sizes are modelled.
- The persistence of `date_email`: the broadcast's newsletter value is returned, not committed.
- The sender address of every mail: a hard-coded string literal, not modelled.
- `subscriber_list`, `user_list`, `user_details`, `logout`, `about`, `contact`: views with no decision beyond the gates.
- The stale `blogapp/routes.py` and `blogapp/forms.py`, the posts and newsletters route handlers, the remaining forms, models, wiring and configuration.
- Concurrent redemptions of two tokens for the same address: the model is sequential.
- SubscriberEmail.IsWordChar: `\b` is evaluated with ASCII word characters only; both anchors sit next to characters the bracketed classes admit, which are all ASCII.

## Findings

| source | as written | input that shows it | evidently intended | confidence | as-written member | corrected member |
|---|---|---|---|---|---|---|
| blogapp/users/routes.py:163-185 | `delete_user` is guarded only by `login_required`, so any logged-in user may delete any account | user 2 with flag `False` deletes user 1 | deleting another user's account needs administrator status; the "admin delete" branch redirects to the administrators' user list | medium, not executed | AccountRoutes.NonAdminDeletesAnotherUser | AccountRoutes.DeleteUserAdminChecked |
| blogapp/users/utils.py:13-21 | the users and newsletters `admin_required` reads `current_user.admin` before `login_required` runs, and an anonymous visitor has no `admin` attribute | an anonymous POST to `/subscribe/1/delete` (users/routes.py:143-146) fails with a server error | refuse anonymous visitors with 403, as the posts variant does at blogapp/posts/utils.py:14-15 | medium, not executed | Authorization.GatesDifferOnAnonymous | Authorization.PostsGateRefusesInsteadOfCrashing |

The route models (`DeleteUser`, `ChangeAdminStatus`, `DeleteSubscriber`) keep the behaviour as written; the corrected members state what each fix would guarantee.
