# A verified model of a blog backend's identity, notification and content core

The system is an Express blog backend. Its route handlers check their input,
run parameterised SQL against a relational database and answer with JSON.
This project models that database as an in-memory store and each handler as
a transition on it:

- `Tables.Store` is the whole database as a value.
- `Tables.Db` is the mutable database object whose fields are the tables.

The model covers:

- the identity lifecycle: register, login, refresh, logout, profile, email
  verification, resend, forgot-password and reset-password;
- the authorisation middleware;
- the notification store, with its realtime broadcast kept as an
  append-only event log so that broadcasts can be counted;
- the publish fan-out that tells every other user about a new article;
- the author's and the administrator's article routes;
- likes;
- the category table;
- the request validators and rate-limiter settings of the auth routes;
- the start-up environment check;
- an older, standalone login controller.

Handlers that change the store have two parts. A specification function maps
the store before a request to the store after it and the reply. A method runs
the handler's statements one at a time on `Tables.Db` and is proved to end in
the state and reply the function gives. Lemmas then state what the handler
promises, such as the order of its checks, which rows appear or disappear,
rollback and uniqueness.

Collaborators outside the code are inputs to the model:

- bcrypt's comparison is a function parameter. A hashed password is a string
  argument.
- A JWT is a value naming its user, its issue time and its lifetime. The
  middleware's `jwt.verify` is a function from a token string to an optional
  user id.
- Random tokens are string arguments.
- Email delivery is a `Delivery` outcome.
- An image upload is an `Upload` outcome.
- `slugify` is a function parameter or a slug argument.
- A failing notification insert is named by the index of the recipient whose
  insert fails.
- Time is an integer count of milliseconds.

## Model

| member | source | states |
|---|---|---|
| Identity.AccountTaken | controllers/authController.mjs:22-27 | the duplicate check finds a row exactly when some user has that email or that username |
| Identity.RegisterSpec | controllers/authController.mjs:22-33 | registration answers 409 exactly when the email or username is taken, and then changes nothing; otherwise 201 |
| Identity.RegisterCreatesAccount | controllers/authController.mjs:43-67 | a registration appends one unverified, unlocked `user` account with the next id, one 24-hour `email_verification` token and one 7-day refresh token, and nothing else; the reply's tokens are signed for the new id |
| Identity.RegisterPreservesInvariants | controllers/authController.mjs:22-67 | registration keeps the store well formed, keeps emails and usernames unique, and keeps every refresh token signed for its row's user |
| Identity.Register | controllers/authController.mjs:14-152 | the handler's statements end in exactly the state and reply of `RegisterSpec`; the email outcome `mail` does not enter them, so a failed send is only logged and the 201 stands |
| Identity.LoginAccount | controllers/authController.mjs:165-190 | login looks the account up by email when an email is given, else by username, and finds none when neither is given |
| Identity.LoginSpec | controllers/authController.mjs:157-305 | login answers 200, 400, 401 or 403, and only a 200 changes the store |
| Identity.LoginOutcomes | controllers/authController.mjs:190-279 | 400 without an identifier; the same 401 "Invalid email or password" for an unknown account or a wrong password; 403 for a locked account; 403 with `requiresVerification` for a correct password on an unverified account; otherwise 200 with status `active`, one refresh token and one session row |
| Identity.Login | controllers/authController.mjs:157-305 | the handler's statements end in exactly the state and reply of `LoginSpec` |
| Identity.LockedAccountIgnoresPassword | controllers/authController.mjs:216-235 | a locked account is refused before the password is compared: same reply and store whatever the password |
| Identity.LoginDoesNotRevealAccounts | controllers/authController.mjs:204-235 | an unknown account and a wrong password get identical replies |
| Identity.LoginPrefersEmail | controllers/authController.mjs:165-188 | when both are given, the email decides the account |
| Identity.AccountStatus | controllers/authController.mjs:170-173 | the reported status is `locked` exactly for a locked account, `active` otherwise |
| Identity.Sign | controllers/authController.mjs:99-112 | a signed token names the given user and lifetime |
| Identity.RefreshReply | controllers/authController.mjs:344-385 | a new access token exactly for a stored refresh token expiring strictly after now, signed for that row's user; otherwise 401; the table is only read |
| Identity.DeleteRefreshTokensWhere | controllers/authController.mjs:395-398 | the delete keeps exactly the rows of other users, and keeps all rows when the id is NULL |
| Identity.LogoutAsWritten | controllers/authController.mjs:390-411 | logout deletes the refresh tokens matching `req.userId` and answers "Logout successful" |
| Identity.LogoutAsWrittenRevokesNothing | controllers/authController.mjs:395-398 | after the gate, `req.userId` is still unset, so a refresh token that worked before logout still works |
| Identity.RevokeRefreshTokens | controllers/authController.mjs:395-398 | the intended delete keeps exactly the other users' tokens |
| Identity.Logout | controllers/authController.mjs:390-411 | the corrected logout replaces the table by `RevokeRefreshTokens` of the authenticated user |
| Identity.LogoutEndsRefresh | controllers/authController.mjs:349-361 | after the corrected logout no token of that user refreshes; other users' tokens refresh as before |
| Identity.ProfileAsWritten | controllers/authController.mjs:310-339 | with no `req.userId` the profile lookup answers 404 |
| Identity.Profile | controllers/authController.mjs:310-339 | 404 exactly when no user has the id; otherwise that user's public columns |
| Identity.ProfileAsWrittenNeverFound | controllers/authController.mjs:312-325 | every request the gate lets through gets 404 from the handler as written, although the gate found the user |
| Identity.SetResetFields | controllers/authController.mjs:434-456 | the reset-column update rewrites exactly the rows with that email |
| Identity.SetResetFieldsTwice | controllers/authController.mjs:434-456 | two updates of the reset columns leave what the second wrote |
| Identity.ForgotPasswordSpec | controllers/authController.mjs:416-469 | 404 for an unknown email, with no change; a delivered email leaves the token with a one-hour expiry; a failed one leaves both reset columns NULL and answers 500 |
| Identity.ForgotPassword | controllers/authController.mjs:416-469 | the handler's statements, including the rollback after a failed send, end in exactly `ForgotPasswordSpec` |
| Identity.ForgotFailureClearsEarlierReset | controllers/authController.mjs:447-456 | a failed send also cancels a reset link sent earlier |
| Identity.ResetHolder | controllers/authController.mjs:697-701 | the lookup finds a user exactly when one holds the token with an expiry after now |
| Identity.ApplyNewPassword | controllers/authController.mjs:714-717 | the update sets the password and clears both reset columns on exactly the rows holding the token |
| Identity.ResetPasswordSpec | controllers/authController.mjs:691-730 | 400 with no change unless some user holds the token unexpired; on success the token is held by nobody |
| Identity.ResetPassword | controllers/authController.mjs:691-730 | the handler's statements end in exactly `ResetPasswordSpec` |
| Identity.ResetTokenSingleUse | controllers/authController.mjs:697-717 | a reset token works once |
| Identity.ForgotThenReset | controllers/authController.mjs:416-469 | forgot-password followed within the hour by a reset with the mailed token replaces that user's password and clears both reset columns |
| Identity.LiveVerification | controllers/authController.mjs:506-518 | the lookup finds a row exactly when one has the token, type `email_verification`, an expiry after now and an existing user |
| Identity.AnyVerification | controllers/authController.mjs:522-534 | the fallback lookup ignores type and expiry |
| Identity.DeleteVerificationToken | controllers/authController.mjs:572-575 | the delete keeps exactly the rows with other tokens |
| Identity.MarkVerified | controllers/authController.mjs:584-588 | the update sets `is_verified` on exactly that user |
| Identity.VerificationFailure | controllers/authController.mjs:520-565 | the fallback always answers 400 and inspects the token's row in the source's order: another link type gets "invalid link type" (exactly then); for an `email_verification` row, an already verified user gets "already verified", else an expiry before now gets "expired", else the generic message, which is also the reply when no row with the token exists |
| Identity.VerifyEmailSpec | controllers/authController.mjs:474-607 | email verification answers 200 or 400 |
| Identity.VerifyEmailOutcomes | controllers/authController.mjs:481-593 | 400 without a token; the fallback with no change when no live row matches; on a live row the token is deleted, and the user is marked verified (200) or, already verified, left as is (400) |
| Identity.VerifyEmail | controllers/authController.mjs:474-607 | the handler's statements end in exactly `VerifyEmailSpec` |
| Identity.ExpiredVerificationChangesNothing | controllers/authController.mjs:520-565 | an expired token changes nothing and answers 400; when every row with the token is an `email_verification` row of an unverified user that expired before now, the reply is "expired" |
| Identity.VerificationTokenSingleUse | controllers/authController.mjs:570-593 | a verification token is consumed by its first use |
| Identity.TokenGone | controllers/authController.mjs:570-593 | a non-empty token with no row left is answered 400 "invalid link" and changes nothing |
| Identity.DeleteUserVerifications | controllers/authController.mjs:647-652 | the delete removes exactly that user's `email_verification` rows |
| Identity.ResendVerificationSpec | controllers/authController.mjs:612-686 | 400 without an email or for a verified user, 404 for an unknown one, no change in these cases; otherwise the user's old tokens are replaced by one new one, which a failed send deletes again (500) |
| Identity.ResendVerification | controllers/authController.mjs:612-686 | the handler's statements end in exactly `ResendVerificationSpec` |
| Identity.ResendLeavesOneToken | controllers/authController.mjs:647-668 | a successful resend leaves the user exactly one verification token, the new one |
| Identity.ResendFailureLeavesNoToken | controllers/authController.mjs:665-677 | a failed resend leaves the user no verification token and every other row in place |
| Identity.RegisteredAccountFound | controllers/authController.mjs:43-53 | after registration the new account is the one its email and its id find |
| Identity.RegisteredTokenVerifies | controllers/authController.mjs:506-593 | the token issued at registration verifies the account within 24 hours |
| Identity.LoginWithGoodPassword | controllers/authController.mjs:216-279 | an unlocked account with a matching password is refused with `requiresVerification` and no change while unverified, and logs in with its role once verified |
| Identity.RegisterVerifyLogin | controllers/authController.mjs:14-305 | register, then verify within a day, then log in with the password succeeds |
| Gate.Split | middleware/auth.mjs:9 | `split(' ')` gives at least one piece and no piece holds a space |
| Gate.JoinSplit | middleware/auth.mjs:9 | splitting loses nothing: joining the pieces with single spaces gives the header back |
| Gate.SplitAfterWord | middleware/auth.mjs:9 | a space-free word followed by a space splits off as the first piece |
| Gate.SplitFirstWord | middleware/auth.mjs:9 | a space-free word ending the text or followed by a space is the first piece |
| Gate.BearerToken | middleware/auth.mjs:8-16 | the token is the non-empty second space-separated piece of a present header |
| Gate.BearerTokenOf | middleware/auth.mjs:9 | `<scheme> <token>` yields the token whatever the scheme is |
| Gate.NoSpaceNoToken | middleware/auth.mjs:9-16 | a header without a space carries no token |
| Gate.AuthenticateToken | middleware/auth.mjs:5-67 | 401 exactly without a token or when it does not verify; 403 exactly for an unknown or locked user; otherwise the request proceeds with only `req.user` set, to that user |
| Gate.AuthorizeAdmin | middleware/auth.mjs:70-97 | passes exactly an attached admin; 401 exactly without a user; otherwise 403 |
| Gate.AuthorizeEditorOrAdmin | middleware/auth.mjs:99-105 | passes exactly an attached editor or admin, else 403 |
| Gate.OptionalAuthenticate | middleware/auth.mjs:108-143 | never rejects; attaches a user exactly when the token verifies for an existing user, ignoring the lock flag |
| Gate.EditorOrAdminChainPasses | middleware/auth.mjs:5-105 | the two-step gate passes exactly a verified, unlocked editor or admin |
| Gate.GateLeavesUserIdUnset | middleware/auth.mjs:50 | neither gate sets `req.userId` |
| Notifications.ActorId | controllers/notificationController.mjs:200 | the broadcast names `data.user_id`, falling back to the recipient when it is missing or zero |
| Notifications.Broadcast | controllers/notificationController.mjs:200-207 | the event is named `notification`, carries the row, and adds the actor's name and avatar when the actor exists |
| Notifications.CreateNotification | controllers/notificationController.mjs:190-213 | the function's statements end in exactly `CreateNotificationSpec`, with defaults `link = null` and `data = {}` and a failing insert passed on |
| Notifications.CreateNotificationAppendsOne | controllers/notificationController.mjs:190-208 | one unread row with the given user, type, message, link and data under a fresh id, and exactly one `notification` event carrying it; a failed insert changes nothing |
| Notifications.BroadcastNamesActor | controllers/notificationController.mjs:200-207 | the event carries the name and avatar of the user named by `data.user_id` |
| Notifications.MarkAsRead | controllers/notificationController.mjs:60-93 | the handler replaces the table and replies as `MarkAsReadSpec` says |
| Notifications.MarkAsReadOutcomes | controllers/notificationController.mjs:65-78 | 404 with no change unless a row has both id and owner; otherwise exactly those rows become read |
| Notifications.MarkAllAsReadHandler | controllers/notificationController.mjs:98-120 | the handler replaces the table by `MarkAllAsRead` and answers 200 |
| Notifications.MarkAllAsReadScope | controllers/notificationController.mjs:102-106 | every notification of the caller is read afterwards, and every other user's is unchanged |
| Notifications.DeleteNotification | controllers/notificationController.mjs:125-155 | the handler replaces the table and replies as `DeleteNotificationSpec` says |
| Notifications.DeleteNotificationOutcomes | controllers/notificationController.mjs:130-142 | exactly the caller's rows with that id go; with none, 404 and nothing removed |
| Notifications.DeleteAllNotifications | controllers/notificationController.mjs:160-185 | the handler replaces the table and replies as `DeleteAllSpec` says |
| Notifications.DeleteAllCountsRemoved | controllers/notificationController.mjs:164-176 | `deletedCount` is the number of rows removed; none of the caller's rows remain, every other user's does |
| Notifications.DisplayLink | controllers/notificationController.mjs:16-23 | a rewritten link is an `/article/` link |
| Notifications.ArticleLinkIsNotPostLink | controllers/notificationController.mjs:17-23 | an `/article/` link never looks like a `/posts/` link |
| Notifications.DisplayLinkCases | controllers/notificationController.mjs:16-23 | a non-empty non-`/posts/` link is kept; a `/posts/` link goes to the slug, else the post id, else NULL; with no link the slug, then the post id decide |
| Notifications.DisplayLinkIdempotent | controllers/notificationController.mjs:16-23 | rewriting a rewritten link changes nothing |
| Notifications.JoinedSlug | controllers/notificationController.mjs:7-55 | a slug is joined only for a post that `data.post_id` names and that exists |
| Notifications.InsertByDate | controllers/notificationController.mjs:36-38 | insertion keeps the newest-first order and the same rows |
| Notifications.SortNewestFirst | controllers/notificationController.mjs:36-38 | the sort gives a newest-first permutation |
| Notifications.Take | controllers/notificationController.mjs:37-38 | the limit keeps fifty rows, or all when fewer |
| Notifications.TakeKeepsNewest | controllers/notificationController.mjs:36-38 | a row the limit cuts off is no newer than the last row kept |
| Notifications.SortedOwnRows | controllers/notificationController.mjs:36-38 | the sorted feed keeps exactly the caller's rows |
| Notifications.FeedIsNewestOwn | controllers/notificationController.mjs:7-55 | the feed holds only the caller's notifications, newest first, all of them up to fifty, and every one left out is no newer than the last one shown |
| Notifications.GetNotifications | controllers/notificationController.mjs:7-55 | each feed row gets the rewritten link of its stored link, joined slug and post id |
| Publishing.AuthorName | routes/articleRoutes.mjs:181-195 | the sender's full name, else username, else "Someone" |
| Publishing.LinkTarget | routes/articleRoutes.mjs:196-205 | the link names the slug, or the article id when there is no slug |
| Publishing.Announce | routes/articleRoutes.mjs:196-238 | the notification's link, data and message are built from the article and its sender |
| Publishing.Ids | routes/articleRoutes.mjs:186-195 | the user ids in table order |
| Publishing.RecipientsAreOthers | routes/articleRoutes.mjs:186-195 | the recipients are exactly the other users, each once |
| Publishing.FanOutRows | routes/articleRoutes.mjs:240-252 | one `post` row per recipient, numbered from the next id |
| Publishing.FanOutRowsSnoc | routes/articleRoutes.mjs:240-252 | one more recipient adds one more row at the end |
| Publishing.Reached | routes/articleRoutes.mjs:240-258 | a failing insert can only cut the recipients short; with no failure, all of them get their row |
| Publishing.FanOut | routes/articleRoutes.mjs:181-258 | the loop ends in exactly `FanOutSpec`: `createNotification` for the first recipient, plain inserts for the rest, stopping at a failing insert; the admin controller runs the same fan-out |
| Publishing.PublishArticle | routes/articleRoutes.mjs:181-258 | publishing runs the fan-out over the other users |
| Publishing.FanOutBroadcastsOnce | routes/articleRoutes.mjs:196-253 | exactly one broadcast, carrying the first recipient's row, when any row is written, and none otherwise; only `notifications` changes |
| Publishing.RowsReachEachIdOnce | routes/articleRoutes.mjs:240-252 | the rows address each recipient once, nobody else, with type `post` and the article link |
| Publishing.PublishAdds | routes/articleRoutes.mjs:181-258 | an uninterrupted publish adds one row per recipient |
| Publishing.PublishNotifiesOthers | routes/articleRoutes.mjs:178-253 | every user other than the author gets exactly one `post` notification linking to the article, the author none; the same holds for the admin controller's fan-out |
| Publishing.PublishBroadcastsOnce | routes/articleRoutes.mjs:196-253 | one broadcast when there is another user, none otherwise |
| Publishing.PublishOnlyNotifies | routes/articleRoutes.mjs:196-253 | a publish changes only the notifications, their id counter and the broadcasts; articles, users and tokens are untouched |
| Publishing.InsertRows | routes/articleRoutes.mjs:240-252 | the insert loop appends one notification per remaining recipient, with consecutive ids, up to the first failing insert |
| Publishing.FanOutRowsSplit | routes/articleRoutes.mjs:240-252 | the rows for a recipient list are the rows for a prefix followed by the rows for the rest, with ids continuing |
| Publishing.RowsAfterFirst | routes/articleRoutes.mjs:240-252 | the fan-out's rows are the first recipient's row followed by the insert loop's rows for the others |
| Publishing.SpecAfterFirst | routes/articleRoutes.mjs:240-252 | after the first row and its broadcast, the rest of the fan-out is the insert loop over the other recipients with the failure index shifted by one |
| Publishing.FanOutPreservesWellFormed | routes/articleRoutes.mjs:240-252 | the fan-out keeps the store well formed, notification ids included |
| Publishing.PublishLinkShownAsWritten | controllers/notificationController.mjs:17-23 | the feed shows a publish link unchanged |
| Articles.CreateArticle | routes/articleRoutes.mjs:124-273 | the handler's statements end in exactly `CreateSpec`; the admin controller's create behaves the same |
| Articles.CreateOutcomes | routes/articleRoutes.mjs:138-178 | 400 without title or category and 500 on a failed upload, neither changing anything; otherwise 201 with one new article under a fresh id, defaults `''`, `''` and `draft`; no notification unless the status is `published` |
| Articles.CreateIgnoresNotificationFailure | routes/articleRoutes.mjs:255-265 | a failing notification changes neither the reply nor the new article |
| Articles.CreateAsWithoutFailure | routes/articleRoutes.mjs:255-265 | a create whose fan-out insert fails answers and stores the article exactly as one where nothing fails |
| Articles.CreatePublishedNotifiesOthers | routes/articleRoutes.mjs:178-253 | creating as `published` gives each other user exactly one `post` notification linking to the article, and broadcasts once when there is another user |
| Articles.ListScope | routes/articleRoutes.mjs:50-52 | the list holds the caller's articles, or all of them for an admin asking for `viewAll` |
| Articles.GetArticleOwnOnly | routes/articleRoutes.mjs:99-121 | another author's article is reported as missing, with 404 |
| Articles.MergeKeepsFalsyFields | routes/articleRoutes.mjs:309-316 | each falsy incoming field keeps the stored value; id, author and slug never change |
| Articles.UpdateArticle | routes/articleRoutes.mjs:276-421 | the handler's statements end in exactly `UpdateSpec` |
| Articles.UpdateOutcomes | routes/articleRoutes.mjs:281-328 | 404 for a missing or foreign article, 500 for a failed upload, 404 when the update returns nothing, none changing anything; otherwise exactly the rows with that id are rewritten |
| Articles.UpdateNotifiesOnlyOnPublish | routes/articleRoutes.mjs:304-307 | only a change from a non-published status to `published` notifies anyone |
| Articles.UpdatePublishBroadcastsOnce | routes/articleRoutes.mjs:331-412 | publishing a draft by update broadcasts once when another user exists, and a failing notification never changes the reply |
| Articles.DeleteArticle | routes/articleRoutes.mjs:424-456 | the handler's statements end in exactly `DeleteSpec` |
| Articles.DeleteOutcomes | routes/articleRoutes.mjs:428-447 | the reply is 404, 500 or 200; 404 exactly for a missing or foreign article; 500 exactly when the owner's `Article.destroy` fails; no reply but 200 changes anything; on 200 that article's rows go and no other row |
| AdminArticles.CheckUploadAccepts | controllers/admin/articleController.mjs:14-24 | a file is accepted exactly when it is JPEG, PNG, GIF or WEBP and at most 5 MB; any other type is refused for its type |
| AdminArticles.GetArticleByIdFinds | controllers/admin/articleController.mjs:206-237 | any article is found whoever wrote it; a missing one is 404 |
| AdminArticles.AdminMergeRules | controllers/admin/articleController.mjs:277-284 | an empty introduction or content overwrites; an empty title or category keeps the stored one |
| AdminArticles.CategoryRadixDiffers | controllers/admin/articleController.mjs:282 | the admin update stores category `"0x1f"` as 31, while the author update (radix 10) stores it as 0 |
| AdminArticles.AdminUpdateArticle | controllers/admin/articleController.mjs:240-370 | the handler's statements end in exactly `AdminUpdateSpec`, including the unchecked null result of `Article.update`, which answers 200 with no article and notifies nobody |
| AdminArticles.AdminUpdateOutcomes | controllers/admin/articleController.mjs:240-370 | only a missing article gives 404 and a failed upload 500, neither changing anything; otherwise 200, with no article and no change when the update returns null, and else with the merged article and exactly the rows with that id rewritten |
| AdminArticles.AdminUpdateIgnoresOwner | controllers/admin/articleController.mjs:242-249 | who asks changes neither the status nor the articles table |
| AdminArticles.AdminUpdateNotifiesOnlyOnPublish | controllers/admin/articleController.mjs:271-299 | only a change from a non-published status, read from the `published` flag when no status is stored, to `published`, by an update that returns the row, notifies anyone |
| AdminArticles.AdminPublishNotifiesAuthor | controllers/admin/articleController.mjs:277-355 | an admin publishing someone else's draft notifies that author when the update returns the row, and nobody when it returns null |
| AdminArticles.AdminDeleteArticle | controllers/admin/articleController.mjs:373-400 | the handler's statements end in exactly `AdminDeleteSpec`, including a `destroy` that removes nothing, whose result is not looked at |
| AdminArticles.AdminDeleteOutcomes | controllers/admin/articleController.mjs:375-392 | only a missing article gives 404 with no change; otherwise the reply is 200, and it comes with no change exactly when the article exists and `destroy` fails; after a destroy that works, its rows go and no other row |
| Likes.LikesOfPost | routes/likeRoutes.mjs:9-21 | the list holds exactly the post's likes, as many as there are |
| Likes.AddLike | routes/likeRoutes.mjs:24-83 | the handler's statements end in exactly `LikeSpec`; the second like route (lines 126-185) runs the same statements with its own texts |
| Likes.LikeOutcomes | routes/likeRoutes.mjs:30-82 | 404 for a missing post or a post whose author is gone, 400 for a repeated like, neither changing anything; otherwise the pair is stored once, also when the reply is 500 because the notification failed |
| Likes.LikeNotifiesAuthor | routes/likeRoutes.mjs:58-76 | the author gets one `post_like` notification naming the liker and linking to `/posts/<id>` exactly when someone else likes the post |
| Likes.LikeKeepsPairsUnique | routes/likeRoutes.mjs:42-55 | likes keep each (post, user) pair unique |
| Likes.LikeThenCheck | routes/likeRoutes.mjs:108-123 | after a like, the check reports it |
| Likes.LikeLinkShownAsArticle | controllers/notificationController.mjs:17-23 | the feed shows a like's link as the article page, by slug or id |
| Likes.RemoveLike | routes/likeRoutes.mjs:86-105 | the handler's statements end in exactly `UnlikeSpec`; the second unlike route (lines 188-207) behaves the same |
| Likes.UnlikeOutcomes | routes/likeRoutes.mjs:91-100 | 404 with no change for a missing pair; otherwise exactly that pair goes, one row when pairs are unique |
| Likes.CountUniquePair | routes/likeRoutes.mjs:91-100 | a pair stored once is counted once |
| Likes.UnlikeKeepsPairsUnique | routes/likeRoutes.mjs:91-100 | removing likes keeps pairs unique |
| Likes.FilterKeepsUnique | routes/likeRoutes.mjs:91-100 | deleting rows keeps pairs unique |
| Likes.OptionalCheckAgrees | routes/likeRoutes.mjs:210-231 | `hasLiked` holds exactly when a user is attached and the pair exists; false without a user |
| EnvCheck.RequiredMissing | utils/validateEnv.mjs:81-85 | the loop reports at most one entry per table entry |
| EnvCheck.RequiredMissingReports | utils/validateEnv.mjs:81-85 | an entry is reported exactly when it is required and unset |
| EnvCheck.CollectRequiredMissing | utils/validateEnv.mjs:81-85 | the loop over the required variables collects exactly the unset ones, in order |
| EnvCheck.ValidateEnvironmentVariables | utils/validateEnv.mjs:76-132 | the loop and the checks after it end in exactly `ValidateSpec` |
| EnvCheck.OnlySecretRequired | utils/validateEnv.mjs:37-40 | `JWT_SECRET` is the only required entry: reported, alone, exactly when unset |
| EnvCheck.OptionalEntriesAddNothing | utils/validateEnv.mjs:81-85 | entries not marked required add nothing |
| EnvCheck.ValidIff | utils/validateEnv.mjs:88-132 | valid exactly when the secret is set and the database is configured by `DATABASE_URL` or all five `DB_*`; each failure adds exactly one entry |
| EnvCheck.PartialWarningIff | utils/validateEnv.mjs:99-118 | a group warns exactly when some but not all of it is set |
| EnvCheck.WarningsIff | utils/validateEnv.mjs:99-126 | at most three warnings, and a security warning exactly when the secret is set and shorter than 32 characters |
| EnvCheck.StartsIff | utils/validateEnv.mjs:138-161 | `printValidationResults` returns true exactly when the configuration is valid |
| AuthRoutes.ValidatorLength | routes/authRoutes.mjs:70-73 | the length `isLength` checks is never more than the character count, and equals it without presentation selectors |
| AuthRoutes.FirstLine | routes/authRoutes.mjs:74 | the part of the password a start-anchored lookahead can see ends at the first line terminator |
| AuthRoutes.HasInRange | routes/authRoutes.mjs:74 | a character class occurs exactly when some character lies in it |
| AuthRoutes.FirstLineFinds | routes/authRoutes.mjs:74 | the first-line reading agrees with the lookahead semantics |
| AuthRoutes.PasswordErrors | routes/authRoutes.mjs:72-75 | a password passes exactly when its length is at least 8 and a lower-case letter, an upper-case letter and a digit each occur before any line break |
| AuthRoutes.PlainPasswordRule | routes/authRoutes.mjs:72-75 | on one line without selectors: at least 8 characters with a lower-case letter, an upper-case letter and a digit |
| AuthRoutes.LineBreakHidesClasses | routes/authRoutes.mjs:74 | the lookaheads do not cross a line break: a password whose first line has no upper-case letter is refused as too weak, whatever follows the break |
| AuthRoutes.RegisterErrors | routes/authRoutes.mjs:69-77 | a registration body passes exactly when the trimmed username has at least 3 characters, the email is valid, the password passes, and a present full name is not blank |
| AuthRoutes.SanitizedFullName | routes/authRoutes.mjs:76 | a present full name is replaced by its trimmed text, an absent one stays absent |
| AuthRoutes.RegisterRoute | routes/authRoutes.mjs:69-107 | a body is refused exactly when the validators report errors, with those messages; otherwise `register` runs on the sanitized body |
| AuthRoutes.RegisterRouteTrimsNames | routes/authRoutes.mjs:70-76 | a valid body is registered under its trimmed username: the duplicate check compares the trimmed name (409 with no change), and a new account stores the trimmed username and full name |
| AuthRoutes.LoginErrors | routes/authRoutes.mjs:79-89 | a login body passes exactly when the email or the username is non-empty and the password is present and non-empty |
| AuthRoutes.ResetErrors | routes/authRoutes.mjs:95-100 | reset applies the registration password rule |
| AuthRoutes.RegisterAndResetAgree | routes/authRoutes.mjs:72-75 | registration and reset accept the same passwords |
| AuthRoutes.LimiterFor | routes/authRoutes.mjs:22-66 | every limiter is skipped exactly when `DISABLE_RATE_LIMIT` is `true`; the window is 15 minutes for login and an hour otherwise |
| AuthRoutes.ProductionIsStricter | routes/authRoutes.mjs:22-66 | in production the maxima are 5, 3 and 3; otherwise 20, 20 and 10; the window and skip do not depend on `NODE_ENV` |
| AuthRoutes.ResetTokenCheckSpec | routes/authRoutes.mjs:121-150 | 200 exactly when some user holds the token with an expiry after now, else 400 "Reset password link is invalid or expired" |
| AuthRoutes.CheckResetToken | routes/authRoutes.mjs:121-150 | the probe only reads the store and answers `ResetTokenCheckSpec` |
| AuthRoutes.CheckPredictsReset | routes/authRoutes.mjs:126-141 | the probe reports a token valid exactly when a reset with it would succeed at that moment |
| Categories.CategoryById | routes/admin/categoryRoutes.mjs:119-129 | the lookup finds a row with the id exactly when one exists |
| Categories.CreateCategory | routes/admin/categoryRoutes.mjs:13-59 | the handler's statements end in exactly `CreateSpec` |
| Categories.CreateOutcomes | routes/admin/categoryRoutes.mjs:18-50 | 400 without a name, 409 for a name already present, neither inserting; otherwise one row with the next id, the name, its slug and the description |
| Categories.CreateKeepsTableWellFormed | routes/admin/categoryRoutes.mjs:26-45 | creating keeps names unique and ids fresh |
| Categories.NewestFirst | routes/admin/categoryRoutes.mjs:97 | the rows in reverse insertion order |
| Categories.SearchFinds | routes/admin/categoryRoutes.mjs:79-112 | 400 without `q`; otherwise exactly the rows whose lower-cased name, slug or description contains the lower-cased, trimmed `q` |
| Categories.LowerIdempotent | routes/admin/categoryRoutes.mjs:91 | lower-casing twice is lower-casing once |
| Categories.SearchIgnoresCase | routes/admin/categoryRoutes.mjs:91-99 | the search ignores the case of the query |
| Categories.BlankQueryFindsAll | routes/admin/categoryRoutes.mjs:83-99 | a query of spaces passes the check and finds every row |
| Categories.GetSpec | routes/admin/categoryRoutes.mjs:115-142 | 404 exactly for a missing id; otherwise the row |
| Categories.UpdateCategory | routes/admin/categoryRoutes.mjs:145-165 | the handler's statements end in exactly `UpdateSpec` |
| Categories.UpdateOutcomes | routes/admin/categoryRoutes.mjs:150-158 | 400 without a name and 404 for a missing id, neither changing anything; otherwise the row takes the new name and description |
| Categories.UpdateCanDuplicateName | routes/admin/categoryRoutes.mjs:145-165 | an update can give two categories the same name |
| Categories.DeleteCategory | routes/admin/categoryRoutes.mjs:168-185 | the handler's statements end in exactly `DeleteSpec` |
| Categories.DeleteOutcomes | routes/admin/categoryRoutes.mjs:171-181 | 404 for a missing id and 400 while an article names the category, neither changing anything; otherwise exactly that row goes |
| Categories.OnlyEditorsReachCategories | routes/admin/categoryRoutes.mjs:10 | a caller who is not a verified, unlocked editor or admin gets 401 or 403 and changes nothing |
| LegacyAuth.LoginOutcomes | controllers/authController.js:5-40 | 404 "User not found." exactly for an unknown email; 401 "Invalid password." exactly for a wrong password; otherwise a 24-hour token and just the id, email and role |
| LegacyAuth.LegacyRevealsAccounts | controllers/authController.js:10-19 | an unknown email and a wrong password get different replies here, but the same 401 from the other login |
| LegacyAuth.CheckUserRole | controllers/authController.js:42-52 | redirect to `/admin` exactly for an admin, else to `/`; 500 without a user |
| Common.ParseInt | routes/articleRoutes.mjs:312 | `parseInt(s, 10)` reads the leading digits and gives NaN, modelled as `None`, exactly when there are none |
| Common.ParseIntNoRadix | routes/articleRoutes.mjs:166 | `parseInt(s)` without a radix reads hexadecimal after a `0x`/`0X` prefix, NaN when no hex digit follows, and otherwise agrees with `ParseInt` |
| Common.HexPrefixReadsZeroInDecimal | routes/articleRoutes.mjs:312 | with radix 10 every `0x` text reads as 0 |
| Common.HexPrefixExamples | controllers/admin/articleController.mjs:81 | `"0x1f"` is 31 without a radix and 0 with radix 10; `"0x"` is NaN without a radix |
| Common.ParseIntNoRadixOfDecimal | controllers/admin/articleController.mjs:282 | an id written in decimal reads back as itself without a radix |
| Common.Trim | routes/authRoutes.mjs:70 | the trimmed text occurs in the input and neither starts nor ends with white space |
| Common.TrimEmptyIffBlank | routes/authRoutes.mjs:76 | a text trims to empty exactly when it is all white space |

## Left out

- Everything about transport is left out: Express wiring, CORS, headers, static files, `listen`, the socket transport and the rate limiter's counting windows. Only the limiter settings are modelled.
- The `catch` blocks that turn an unexpected database error into a 500 are left out, except where the code picks out a specific failure: a failed email send, a failed notification insert, a failed upload, the update that returns nothing, and a destroy that fails.
- bcrypt, JWT signing and verification, `crypto.randomBytes`, nodemailer, Cloudinary, multer streaming and `slugify` are inputs. Fresh tokens are assumed not to collide with stored ones where a lemma needs it.
- The `Article`, `Category` and `User` models are not part of this model. Articles: `create` is modelled as an insert under the next id, `update` as a row rewrite that may report nothing (a null result, taken to mean that no row was rewritten), and `destroy` as a removal that may fail. Categories: `update` rewrites name and description and keeps the slug, and `destroy` refuses while an article names the category. `findAll` and `User.findById` are modelled as lookups in the users table. A `create` that throws is not modelled.
- The article search route, the slug detail route and the admin `getAllArticles` listing are left out. They are read-only SQL over columns outside the model. `GET /` of the categories is left out because `Category.findAll` is outside the model.
- SQL `LIKE` wildcards in a search query are matched literally. `LOWER` and `toLowerCase` are modelled on ASCII letters only. `trim` removes the ASCII blanks and the no-break space, not every Unicode space.
- Ordering ties are not modelled: rows with equal `created_at` are ordered only as far as the sort in the model orders them, and category rows are assumed to be created in table order.
- JSON `null` and an absent field are the same `None`. Values of the wrong JSON type, such as a number where a string is expected, are not modelled.
- Common.ParseInt: a sign, leading white space or a value beyond the integer range is not modelled, in either reading of `parseInt`.
- Request ids are modelled as numbers, so a non-numeric `:id` that the database would reject is not modelled.
- middleware/validateRequest.mjs is not part of this model: `AuthRoutes.RegisterRoute` records the validators' messages of a refused body, not the reply built from them. Only the register route is tied to its handler; the other chains have no sanitizer.
- `isEmail` is an input to `AuthRoutes.RegisterErrors`. The forgot-password and resend validators, which only run `isEmail`, are left out.
- The feed rows of `getNotifications` keep the id, type, message, rewritten link, data and date. The joined `user_name`, `user_avatar`, `author_name`, `author_avatar` and `post_slug` columns are not modelled; the slug is used only to rewrite the link.
- `JWT_SECRET`'s length is counted in characters, not in UTF-16 code units.
- Wall-clock dates are integers: `setDate(+7)` is seven times 24 hours, with daylight-saving changes ignored, and `new Date()` in a comparison is `now`.
- The values that the verification-token insert of `register` hands back with `RETURNING` (controllers/authController.mjs:61-85) are only logged and compared with the generated token for a warning, so they are left out. A database error inside the insert block is not modelled either. That includes the 500 "tables have not been created" reply, which the `catch` at lines 132-143 chooses when the error text contains `relation` and `does not exist`.
- The reset-password check-then-update race and all other concurrency are not modelled; the model is sequential.
- LegacyAuth.LoginOutcomes: `User.findOne` of that controller is modelled as the email lookup on the same users table; a missing email or password in the body, which the library would treat differently, is not modelled.
- The test files exercise routes outside this core and are not modelled.

## Findings

| source | as written | input that shows it | evidently intended | confidence | as-written member | corrected member |
|---|---|---|---|---|---|---|
| controllers/authController.mjs:395-398 | `logout` deletes the refresh tokens of `req.userId`, which no middleware sets, so it deletes none | any logout request with a valid access token; a refresh token that worked before still works after | delete every refresh token of the authenticated user `req.user.id` | not executed | Identity.LogoutAsWrittenRevokesNothing | Identity.LogoutEndsRefresh |
| controllers/authController.mjs:312-325 | `getProfile` looks the user up by `req.userId`, which is never set, so every request gets 404 | any profile request with a valid access token for an existing, unlocked user | look up the authenticated user `req.user.id` | not executed | Identity.ProfileAsWrittenNeverFound | Identity.Profile |
