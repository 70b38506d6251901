# mern_blog core rules in Dafny

This project models the rules at the centre of the mern_blog server and two
of its client components. Each part corresponds to one source file.

- **Analytics controller.** The user-agent classifiers, the `trackEvent`
  handler and the admin reports. `trackEvent` stores an event and bumps a
  post's view counter when the event is a post view. The admin reports are
  the dashboard and per-post filter, group, count, sort and take-10
  aggregations.
- **Category controller.**
  - Slug derivation.
  - The guarded create, update and delete handlers, which act on a category
    table.
  - The list filter and its ordering.
  - The category-by-slug page.
  - The recursive hierarchy builder.
- **Validators and sanitisers.** The regular-expression acceptance tests,
  written as character-class predicates. Also slug generation, pagination
  clamping, the trimmed and length-bounded text checks, file-upload checks
  and input sanitising.
- **Security helpers.**
  - The per-key sliding-window rate limiter. It is a class whose request map
    is updated on every call.
  - The CSRF rule.
  - The password strength score and its feedback.
  - The secure-token alphabet mapping.
- **The five Mongoose schemas** (post, comment, category, user, analytics).
  They become records with their enumerations, bounds and defaults. The
  virtuals become functions. The two pre-save hooks become methods on
  document classes, each specified by a pure function of the old document
  and its set of modified paths.
- **`PostCard`'s reading time and truncation**, and **`CommentSection`'s
  list updates** for submit, like, edit and delete.

The database is a `Store.Db` object holding three sequences: events, posts
and categories. A controller that writes is a method with `modifies db`. A
controller that only reads is a function of the sequences. The clock is a
parameter `now`, in milliseconds. Random bytes, request outcomes and the
signed-in flag are also inputs.

Modules:
- Shared helpers:
  - `Wrappers`: Option and Result.
  - `Text`: ASCII case, JavaScript whitespace trimming and run replacement.
  - `Sorting`: insertion sort by a total preorder.
  - `Reports`: group, count, rank and take.
- One module per source file:
  - `AnalyticsModel`, `PostModel`, `CommentModel`, `CategoryModel`, `UserModel`
  - `Validation`, `Auth`
  - `AnalyticsController`, `CategoryController`
  - `PostCard`, `CommentSection`

## Model

| member | source | states |
|---|---|---|
| AnalyticsController.GetDeviceType | api/controllers/analytics.controller.js:259-264 | mobile exactly when the lower-cased agent contains "mobile"; tablet exactly when it contains "tablet" but not "mobile"; desktop otherwise |
| AnalyticsController.GetBrowser | api/controllers/analytics.controller.js:266-274 | first match wins, name by name: Chrome exactly when the lower-cased agent contains "chrome"; Firefox exactly when it contains "firefox" but not "chrome"; Safari, Edge and Opera likewise after every earlier keyword is absent; Unknown exactly when none of the five occurs |
| AnalyticsController.GetOS | api/controllers/analytics.controller.js:276-284 | first match wins, name by name: Windows exactly when the lower-cased agent contains "windows"; macOS exactly when it contains "mac" but not "windows"; Linux, Android and iOS likewise after every earlier keyword is absent; Unknown exactly when none occurs |
| AnalyticsController.ClassifiersIgnoreCase | api/controllers/analytics.controller.js:260-277 | all three classifiers give the same answer for an agent and its lower-cased form; the device type is always a value of the schema's device enumeration |
| AnalyticsController.GetLocationFromIP | api/controllers/analytics.controller.js:286-290 | the location lookup yields no location for every address |
| AnalyticsController.TrackFields | api/controllers/analytics.controller.js:24-43 | the event fields carry the request's type, page and post id, and never a timestamp, so the schema default applies |
| AnalyticsController.TrackedEvent | api/controllers/analytics.controller.js:7-46 | a tracked event is stored exactly when its type is in the enumeration and a page is given; it carries the requested type, page, post id, action and search query; session is `sessionID \|\| header \|\| "anonymous"`, agent `user-agent \|\| "unknown"`, IP `ip \|\| remoteAddress \|\| forwarded-for \|\| "unknown"`; browser and system are the classifiers' answers and the device type the classified one; the location is empty; the timestamp is now; the referrer is kept exactly when the header is set |
| AnalyticsController.IncrementViews | api/controllers/analytics.controller.js:49-53 | `$inc` over the post table keeps its length |
| AnalyticsController.IncrementViewsEffect | api/controllers/analytics.controller.js:49-53 | only `stats.views` of a post with the given id can change; every field besides the view count is kept, and posts with another id are untouched |
| AnalyticsController.IncrementViewsAbsent | api/controllers/analytics.controller.js:49-53 | an id that names no post leaves the table unchanged |
| AnalyticsController.IncrementViewsTotal | api/controllers/analytics.controller.js:49-53 | the total of all view counters grows by exactly 1 when the post exists and by 0 otherwise |
| AnalyticsController.TrackEvent | api/controllers/analytics.controller.js:7-62 | appends exactly the created event on success and nothing on a validation error; increments views only for a stored post view with a post id; leaves the category table alone |
| AnalyticsController.OfKind | api/controllers/analytics.controller.js:77-100 | the events of one type: membership is exactly "in the log and of that type" |
| AnalyticsController.Since | api/controllers/analytics.controller.js:71-100 | the events at or after a time bound: membership is exactly "in the log and not earlier" |
| AnalyticsController.OfPost | api/controllers/analytics.controller.js:190-243 | the events of one post: membership is exactly "in the log with that post id" |
| AnalyticsController.OfKindCount | api/controllers/analytics.controller.js:77-100 | the selection keeps each event of the type exactly as often as the log holds it, and no other event |
| AnalyticsController.SinceCount | api/controllers/analytics.controller.js:71-100 | the window keeps each event at or after the bound exactly as often as the log holds it, and no other event |
| AnalyticsController.OfPostCount | api/controllers/analytics.controller.js:190-243 | the selection keeps each event of the post exactly as often as the log holds it, and no other event |
| AnalyticsController.SinceShrinks | api/controllers/analytics.controller.js:71-89 | a later lower bound never counts more events |
| AnalyticsController.KindsPartition | api/controllers/analytics.controller.js:77-100 | the five per-type counts add up to the size of the log |
| AnalyticsController.OfPostSince | api/controllers/analytics.controller.js:190-207 | a post's windowed views never exceed the windowed count of the whole log |
| AnalyticsController.DayMonotone | api/controllers/analytics.controller.js:134-150 | the day key of `$dateToString` is monotone in the timestamp |
| AnalyticsController.Countries | api/controllers/analytics.controller.js:126-131 | exactly the countries of events that have a location with a country |
| AnalyticsController.Referrers | api/controllers/analytics.controller.js:227-243 | exactly the referrers that are set |
| AnalyticsController.EngagementActions | api/controllers/analytics.controller.js:210-224 | exactly the actions that are like, comment or share |
| AnalyticsController.CountriesCount | api/controllers/analytics.controller.js:126-131 | each country occurs exactly once per event located in it |
| AnalyticsController.ReferrersCount | api/controllers/analytics.controller.js:227-243 | each referrer occurs exactly once per event it referred |
| AnalyticsController.EngagementCount | api/controllers/analytics.controller.js:210-224 | each of like, comment and share occurs exactly once per event recording it; other actions not at all |
| AnalyticsController.DashboardStats | api/controllers/analytics.controller.js:65-175 | 403 exactly for a non-admin caller; otherwise the eight overview counts are the sizes of the matching selections (all page views, the last 24 hours, 7 days and 30 days, post views and their 30-day window, likes, comments, shares, searches); top posts, pages and countries are the top 10 of their keys: distinct keys, true counts, sorted by count descending, and a key left out only when 10 are listed that each count at least as much; devices hold every device type once with its true count; daily views hold every day of the 30-day window once with its true count, in strictly ascending day order |
| AnalyticsController.OverviewConsistent | api/controllers/analytics.controller.js:71-100 | views in the last 24 hours ≤ 7 days ≤ 30 days ≤ total; windowed post views ≤ post views; the four type counts together never exceed the log |
| AnalyticsController.DashboardBreakdownsComplete | api/controllers/analytics.controller.js:119-150 | device counts add up to all page views; daily counts add up to the 30-day views; every day is inside the window |
| AnalyticsController.NoLocationNoCountries | api/controllers/analytics.controller.js:126-131 | events without a location contribute no country |
| AnalyticsController.CountryStatsEmpty | api/controllers/analytics.controller.js:126-131 | with the lookup always empty, the country breakdown is always empty |
| AnalyticsController.PostAnalytics | api/controllers/analytics.controller.js:178-256 | 403 exactly for a non-admin caller; otherwise views over time hold every day of the post's 30-day views once with its true count, in ascending order; engagement holds every like, comment and share action once with its true count; referrers are the top 10 of the post's referrers, with the same top-n guarantee as the dashboard |
| AnalyticsController.EngagementBounds | api/controllers/analytics.controller.js:210-224 | at most three engagement groups, each a like, comment or share, counting no more than the post's user actions |
| AnalyticsController.GroupedEngagement | api/controllers/analytics.controller.js:210-224 | grouping engagement actions yields at most three groups, all engagement kinds, with total at most the number of events |
| AnalyticsController.PostViewsBounds | api/controllers/analytics.controller.js:190-243 | a post's 30-day views never exceed the dashboard's 30-day post views; its referrer counts never exceed its post views |
| AnalyticsModel.ParseEventType | api/models/analytics.model.js:5-9 | the `type` enumeration accepts a string only if it is the name of a value |
| AnalyticsModel.ParseEventTypeName | api/models/analytics.model.js:5-9 | every event type's name is accepted and parsed back to that type |
| AnalyticsModel.ParseDeviceType | api/models/analytics.model.js:46-51 | the device enumeration accepts exactly the three names, each as its own value |
| AnalyticsModel.CreateEvent | api/models/analytics.model.js:3-81 | creation succeeds exactly when type is in its enumeration, device type (if given) in its enumeration and session, page, agent and IP are present and non-empty; the event then stores exactly the supplied session, page, agent, IP, user, post, action, search query, referrer, location, browser, system and device type; nullable fields default to null, device type to desktop, duration to 0 and timestamp to now |
| PostModel.WordCountJoin | api/models/post.model.js:113 | `split(' ')` of two texts joined by one space gives as many pieces as the two texts together |
| PostModel.CeilDiv | api/models/post.model.js:114 | `Math.ceil(n / d)`: the least q with q·d ≥ n |
| PostModel.EstimatedReadingTime | api/models/post.model.js:111-115 | at least 1 minute, and the least number of 200-word minutes that covers the words |
| PostModel.NewPost | api/models/post.model.js:3-108 | a new post keeps the given id, author and content, stores the title trimmed and the slug lower-cased and trimmed (the schema setters), and is a draft, uncategorized, not featured, unpublished, with no excerpt or tags, reading time 0 and all four counters 0; it satisfies the schema exactly when the author is set, the content has 10 or more characters, the trimmed title has 1 to 200 and the trimmed slug is non-empty |
| PostModel.Saved | api/models/post.model.js:118-129 | the reading time is recomputed exactly when content was modified; `publishedAt` changes exactly when status was modified to published while unset, and then becomes now with `isPublished` true; nothing else changes |
| PostModel.PostDocument.PreSave | api/models/post.model.js:118-129 | the hook sets the document to `Saved` of the old document and keeps a set `publishedAt` |
| PostModel.PostDocument.Create | api/models/post.model.js:118-123 | a new document counts content and status as modified |
| PostModel.PublishedAtIsStable | api/models/post.model.js:123-126 | once `publishedAt` is set, no sequence of saves changes it |
| PostModel.PublishedAtIsFirstPublication | api/models/post.model.js:123-126 | a `publishedAt` set by a sequence of saves is the time of one of those saves, and that save modified the status |
| PostModel.FirstSaveSetsReadingTime | api/models/post.model.js:119-121 | the first save of a new post gives it a reading time of at least 1 |
| CommentModel.ParseStatus | api/models/comment.model.js:24-28 | the status enumeration accepts exactly the four names, each as its own value |
| CommentModel.StoreContent | api/models/comment.model.js:5-11 | content is stored trimmed, and accepted exactly when the trimmed text has 1 to 1000 characters |
| CommentModel.StoreContentMatchesValidator | api/models/comment.model.js:5-11 | the schema accepts exactly the comments `validateCommentContent` accepts (with sanitising set aside), storing the same text |
| CommentModel.NewComment | api/models/comment.model.js:20-55 | a new comment is a top-level approved, unedited comment with no reactions and zero counters, so its counters agree with its arrays |
| CommentModel.SyncedReactions | api/models/comment.model.js:81-88 | with synced counters, total reactions is likes plus dislikes and the score is likes minus dislikes, bounded by them |
| CommentModel.Resynced | api/models/comment.model.js:91-101 | each counter becomes its array's length exactly when that array was modified; everything else is kept |
| CommentModel.ResyncUntouched | api/models/comment.model.js:91-101 | a save that modified neither array changes nothing |
| CommentModel.ResyncIdempotent | api/models/comment.model.js:91-101 | running the hook twice is the same as once |
| CommentModel.ResyncSyncs | api/models/comment.model.js:91-101 | modifying both arrays always leaves the counters synced; an already synced comment is unchanged |
| CommentModel.CommentDocument.Create | api/models/comment.model.js:36-43 | a new document counts both arrays as modified |
| CommentModel.CommentDocument.SetLikes | api/models/comment.model.js:36-39 | assigning the likes array marks it modified and changes nothing else |
| CommentModel.CommentDocument.PreSave | api/models/comment.model.js:91-101 | the hook sets the document to `Resynced` of the old one; a modified array's counter equals its length |
| CategoryModel.ColorValidatorIsHexColor | api/models/category.model.js:27-31 | the schema's colour validator accepts exactly what `validateHexColor` accepts |
| CategoryModel.FullPath | api/models/category.model.js:88-93 | "parent > name" with a parent (length parent + 3 + name), the name alone otherwise; it always ends in the name |
| CategoryModel.FullPathOfChild | api/models/category.model.js:88-93 | a subcategory's path starts with its parent id and " > " |
| CategoryModel.NewCategory | api/models/category.model.js:19-78 | the defaults: empty description, colour #3B82F6, no parent, order 0, active, not featured, counters 0; the default colour passes the validator |
| UserModel.FullName | api/models/user.model.js:108-113 | when both names are set, the first name, one space and the last name, character for character; the username otherwise |
| UserModel.DisplayName | api/models/user.model.js:116-118 | the full name when it is non-empty, the username otherwise |
| UserModel.DisplayNameIsFullName | api/models/user.model.js:108-118 | the display name always equals the full name |
| UserModel.NewUser | api/models/user.model.js:3-105 | a user is created exactly when the trimmed username has 3 to 30 characters, the trimmed email is non-empty and the password has 6 or more; the email is stored trimmed and lower-cased; not admin, not verified, active, theme auto, counters 0 |
| UserModel.StoredEmailIsLower | api/models/user.model.js:13-19 | the stored email is lower case |
| UserModel.ValidUsernameStoredAsIs | api/models/user.model.js:5-12 | a username `validateUsername` accepts passes the schema's bounds unchanged by trimming |
| Validation.EmailAccepted | api/utils/validation.js:4-7 | an accepted email has exactly one '@', no whitespace, a non-empty local part and a '.' strictly inside the domain |
| Validation.EmailShapeAccepted | api/utils/validation.js:4-7 | conversely every such string is accepted |
| Validation.PasswordRule | api/utils/validation.js:10-14 | a password is accepted exactly when it has 8 or more characters from `[A-Za-z0-9@$!%*?&]` including a lower-case letter, an upper-case letter and a digit |
| Validation.UsernameHasNoSpace | api/utils/validation.js:17-21 | an accepted username has 3 to 30 characters and no whitespace |
| Validation.ObjectIdIgnoresCase | api/utils/validation.js:140-143 | an id is accepted exactly when its lower-cased form is |
| Validation.ValidSlugIsStored | api/utils/validation.js:24-28 | an accepted slug is unchanged by lower-casing and by trimming |
| Validation.GenerateSlugAsWritten | api/utils/validation.js:31-38 | the output is over `[a-z0-9-]` with no two adjacent hyphens |
| Validation.GenerateSlugKeepsLeadingHyphen | api/utils/validation.js:37 | the title " a" gives the slug "-a" |
| Validation.CollapsedSlug | api/utils/validation.js:32-36 | after the replacements the text is over `[a-z0-9-]` with no doubled hyphen and does not start or end with whitespace |
| Validation.GenerateSlug | api/utils/validation.js:31-38 | the corrected slug is over `[a-z0-9-]`, has no doubled hyphen, neither starts nor ends with '-', and passes `validateSlug` when non-empty |
| Validation.CollapsedSlugKeepsAlnums | api/utils/validation.js:31-38 | the slug as written keeps every letter and digit of the lower-cased title, in order, and adds nothing but hyphens |
| Validation.GenerateSlugKeepsAlnums | api/utils/validation.js:31-38 | the corrected slug keeps the same letters and digits |
| Validation.GenerateSlugJoin | api/utils/validation.js:31-38 | where the hyphens go: a word of letters and digits, whitespace, then a tail starting with a letter or digit give the lower-cased word, one '-', and the tail's slug (as written, before the final trim, and corrected) |
| Validation.ValidatePagination | api/utils/validation.js:67-75 | page ≥ 1 and 1 ≤ limit ≤ 100; missing, unparsable or 0 gives page 1 / limit 10; in-range values are kept; negatives clamp to 1; limits over 100 clamp to 100 |
| Validation.PaginationIdempotent | api/utils/validation.js:67-75 | validated parameters validate to themselves |
| Validation.CheckTrimmed | api/utils/validation.js:94-109 | the shared length check succeeds exactly for a non-empty string whose trimmed length is within bounds, returns the trimmed text, and otherwise fails with 400 for the first failing reason: required, too short, too long |
| Validation.ValidateSearchQuery | api/utils/validation.js:94-109 | succeeds exactly for a string whose trimmed form has 2 to 100 characters and returns that trimmed form; otherwise 400 |
| Validation.ValidateCategoryName | api/utils/validation.js:146-161 | succeeds exactly for a string whose trimmed form has 2 to 50 characters and returns it; otherwise 400 |
| Validation.ValidatePostContent | api/utils/validation.js:164-179 | succeeds exactly for trimmed content of 10 to 50000 characters and returns it sanitised; otherwise 400 |
| Validation.ValidateCommentContent | api/utils/validation.js:182-197 | succeeds exactly for trimmed content of 1 to 1000 characters and returns it sanitised; otherwise 400 |
| Validation.CheckTrimmedIdempotent | api/utils/validation.js:94-109 | a value the check returned passes the same check again unchanged |
| Validation.ValidateFileUpload | api/utils/validation.js:112-126 | succeeds exactly for a present file of an allowed type within the size limit; otherwise 400 naming the first failing check in the order missing, type, size |
| Validation.DefaultUploadRule | api/utils/validation.js:112 | with the defaults, exactly JPEG, PNG or GIF files of at most 5 MiB pass |
| Validation.SanitizeUserInput | api/utils/validation.js:129-137 | non-strings pass unchanged; a string becomes the trim of the string with every '<' and '>' removed, so it has neither character, no whitespace at either end and only characters of the input |
| Validation.SanitizeIdempotent | api/utils/validation.js:129-137 | sanitising twice is the same as once |
| Auth.AlphabetShape | api/utils/auth.js:83 | the alphabet has 62 distinct alphanumeric characters |
| Auth.TokenChar | api/utils/auth.js:89 | a byte maps to an alphanumeric character |
| Auth.GenerateSecureToken | api/utils/auth.js:82-93 | the token has one character per random byte, character i being the alphabet at byte i mod 62, all alphanumeric |
| Auth.EveryTokenCharReachable | api/utils/auth.js:82-93 | every alphabet character is produced by some byte |
| Auth.RequestKey | api/utils/auth.js:100 | the key is the IP if set, else the forwarded-for header if set, else "unknown"; never empty |
| Auth.After | api/utils/auth.js:105-106 | the filter keeps exactly the timestamps after the window start |
| Auth.AfterCount | api/utils/auth.js:105-106 | the filter keeps each timestamp after the window start exactly as often as the list holds it, and no other |
| Auth.AfterAppend | api/utils/auth.js:105-106 | the filter keeps the order of the list: it distributes over concatenation |
| Auth.CeilSeconds | api/utils/auth.js:117 | `Math.ceil(windowMs / 1000)`: the least whole number of seconds covering the window |
| Auth.RateStep | api/utils/auth.js:99-123 | a request is refused with 429 exactly when the key already has `max` timestamps inside the window; the key's list is pruned to the window and gets `now` appended exactly when the request is allowed; retryAfter is the window in whole seconds and the message the configured one or the default |
| Auth.RateStepBounded | api/utils/auth.js:105-121 | every key's list stays at most `max` long |
| Auth.RateStepOtherKeys | api/utils/auth.js:105-121 | no other key's list is added, removed or changed |
| Auth.RateStepWindow | api/utils/auth.js:105-121 | afterwards the key's list holds exactly its earlier timestamps inside the window, plus `now` if allowed |
| Auth.RateLimiter.constructor | api/utils/auth.js:96-97 | a new limiter starts with an empty request map, satisfying its invariant |
| Auth.RateLimiter.Handle | api/utils/auth.js:99-123 | each call updates the map exactly as `RateStep` and keeps the length invariant |
| Auth.CsrfProtection | api/utils/auth.js:127-143 | a GET always passes; any other method passes exactly when the presented token and the session token are both non-empty and equal; otherwise 403 |
| Auth.CsrfHeaderWins | api/utils/auth.js:132 | a header token takes precedence over the body token |
| Auth.CsrfNeedsSession | api/utils/auth.js:133-135 | with no session token only GET passes |
| Auth.Score | api/utils/auth.js:160 | the score is at most 5; it is 5 exactly when all checks pass and 0 exactly when none does |
| Auth.FailedMessages | api/utils/auth.js:171-181 | among the first n checks, the messages of the failed ones (the facts are in the two lemmas below) |
| Auth.FailedMessagesFacts | api/utils/auth.js:171-181 | among the first n checks, a check's message is listed exactly when it failed, and nothing else is listed |
| Auth.FailedMessagesOrder | api/utils/auth.js:171-181 | the listed messages follow the order of the checks: each comes after those of earlier checks |
| Auth.Feedback | api/utils/auth.js:171-181 | one message per failed check, so 5 − score messages; each message is present exactly when its check failed; messages appear in the order the checks are listed |
| Auth.FeedbackCount | api/utils/auth.js:171-181 | the list has one entry per failed check |
| Auth.FailuresScore | api/utils/auth.js:160-181 | failed checks plus the score make five |
| Auth.GetPasswordFeedback | api/utils/auth.js:171-181 | the five conditional pushes produce exactly `Feedback` |
| Auth.CheckPasswordStrength | api/utils/auth.js:151-168 | the checks are the five tests of the password; the score is `Score` of them and the feedback `Feedback` of them, so 5 − score messages in check order; strong exactly when the score is at least 4 |
| Auth.AcceptedPasswordIsStrong | api/utils/auth.js:151-168 | a password `validatePassword` accepts is always rated strong |
| CategoryController.Slugify | api/controllers/category.controller.js:15 | the slug is over `[a-z0-9-]`, has no doubled hyphen, neither starts nor ends with '-', and passes `validateSlug` when non-empty |
| CategoryController.SlugifyIdempotent | api/controllers/category.controller.js:15 | re-slugging a slug gives the same slug, and case in the name does not matter |
| CategoryController.SlugifyFixesSlugs | api/controllers/category.controller.js:15 | a well-formed slug is its own slug |
| CategoryController.SlugifyKeepsAlnums | api/controllers/category.controller.js:15 | the slug's letters and digits are exactly those of the lower-cased name, in order |
| CategoryController.SlugifyJoin | api/controllers/category.controller.js:15 | where the hyphens go: a word of letters and digits, a run of other characters, then a tail starting with a letter or digit give the lower-cased word, one '-', and the tail's slug |
| CategoryController.SlugifyLeading | api/controllers/category.controller.js:15 | characters outside `[a-z0-9]` before the first letter or digit leave no trace |
| CategoryController.SlugSurvivesSetters | api/models/category.model.js:12-18 | the derived slug is unchanged by the schema's lowercase and trim setters |
| CategoryController.FindIndex | api/controllers/category.controller.js:161-164 | finds the first category with the id, and none exactly when the id is absent |
| CategoryController.NewFromRequest | api/controllers/category.controller.js:26-38 | the new category is valid exactly when the trimmed name has 1 to 50 characters, the slug is non-empty, the description has at most 500 characters and the colour is valid; then it carries the trimmed name, the derived slug, the requested parent and the defaults |
| CategoryController.CreateCategory | api/controllers/category.controller.js:6-48 | non-admins get 403 and a missing name an error, both before any change; a name or slug already present gives 400 and inserts nothing; otherwise exactly the new category is appended; unique names, slugs and ids stay unique |
| CategoryController.Applied | api/controllers/category.controller.js:131-135 | an update keeps the id; it keeps the `stats` counters unless it sends them; an empty update changes nothing |
| CategoryController.AppliedFields | api/controllers/category.controller.js:131-135 | each field the update sends, the `stats` counters included, takes the sent value (name trimmed, slug lower-cased and trimmed by the setters); each field it leaves out keeps its value |
| CategoryController.AppliedTwice | api/controllers/category.controller.js:131-135 | applying the same update twice is the same as once |
| CategoryController.AppliedWellFormed | api/controllers/category.controller.js:131-135 | a valid update of a well-formed category gives a well-formed category |
| CategoryController.UpdateCategory | api/controllers/category.controller.js:117-149 | 403 for non-admins, a validation error for an invalid update, 404 for an unknown id, a duplicate-key error exactly when another category holds the new name or slug, and success otherwise; on success exactly that one entry is replaced by the applied update, with the slug re-derived only when a name was supplied; failure changes nothing; uniqueness is kept |
| CategoryController.PostsIn | api/controllers/category.controller.js:166 | zero exactly when no post is in the category |
| CategoryController.SubcategoriesOf | api/controllers/category.controller.js:172 | zero exactly when no category names this one as parent |
| CategoryController.DeleteCategory | api/controllers/category.controller.js:152-186 | checks in order: 403 for non-admins, 404 for an unknown id, 400 with the count while posts use it, 400 with the count while subcategories exist; otherwise exactly that entry is removed and nothing else changes |
| CategoryController.DeleteRemovesId | api/controllers/category.controller.js:177 | after deleting, the id is gone and the rest stays unique |
| CategoryController.RemoveAtKeepsOthers | api/controllers/category.controller.js:177 | removing one entry keeps every other entry and their order |
| CategoryController.ByOrderThenNameIsPreorder | api/controllers/category.controller.js:70 | (order asc, name asc) is a total preorder, so the sort is well defined |
| CategoryController.Matching | api/controllers/category.controller.js:55-69 | a category is listed exactly when it meets each filter the query turned on, with its multiplicity kept |
| CategoryController.ListCategories | api/controllers/category.controller.js:51-80 | the listing holds exactly the matching categories, each as often as stored, ordered by order and then name |
| CategoryController.ListUnfiltered | api/controllers/category.controller.js:55-67 | with no filter turned on, the listing is a permutation of the table |
| CategoryController.PublishedPosts | api/controllers/category.controller.js:95-99 | exactly the posts in the category that are published with `isPublished` set |
| CategoryController.PublishedPostsCount | api/controllers/category.controller.js:95-99 | the filter keeps each published post of the category exactly as often as the collection holds it, and no other post |
| CategoryController.FindActiveBySlug | api/controllers/category.controller.js:87 | finds an active category with the (setter-cast) slug, and none exactly when there is none |
| CategoryController.CategoryBySlug | api/controllers/category.controller.js:83-114 | 404 exactly when no active category has the slug; otherwise at most 10 of its published posts, newest publication first, and all of them when fewer than 10 |
| CategoryController.CategoryBySlugTop | api/controllers/category.controller.js:95-102 | the page lists no post more often than the collection holds it, and a published post of the category missing from the page was cut by the limit: the page has 10 posts, each published no earlier |
| CategoryController.CategoryBySlugAsWritten | api/controllers/category.controller.js:95-111 | as written, the response succeeds only when the page lists no post |
| CategoryController.CategoryBySlugAsWrittenFails | api/controllers/category.controller.js:95-111 | as written, an active category with a published post always ends in the error handler |
| CategoryController.WithParent | api/controllers/category.controller.js:197 | exactly the items whose parent is the given one |
| CategoryController.WithParentCount | api/controllers/category.controller.js:197 | the filter keeps each child of the parent exactly as often as the list holds it, and no other item |
| CategoryController.WithParentAppend | api/controllers/category.controller.js:197 | the filter keeps the input order: it distributes over concatenation |
| CategoryController.DescentExtends | api/controllers/category.controller.js:195-202 | descending to an item's child never revisits an item already on the path, so the recursion visits a strictly smaller set |
| CategoryController.ChildrenHeads | api/controllers/category.controller.js:195-202 | the nodes built for a parent are exactly that parent's children, in input order |
| CategoryController.ChildrenWellBuilt | api/controllers/category.controller.js:195-202 | every node in the tree is an item, and its children are exactly the items whose parent is its id, in order |
| CategoryController.ChildrenSound | api/controllers/category.controller.js:195-204 | every category in the tree is an item whose ancestor chain reaches a root |
| CategoryController.ChildOfTreeNode | api/controllers/category.controller.js:195-202 | a child of any node in a well-built tree is itself in the tree |
| CategoryController.HierarchyComplete | api/controllers/category.controller.js:195-204 | every item whose ancestor chain reaches a root appears in the hierarchy |
| CategoryController.HierarchyContents | api/controllers/category.controller.js:195-204 | with distinct ids, the roots are exactly the items without a parent, in order; an item appears in the hierarchy exactly when its chain reaches a root |
| CategoryController.UnrootedUnreachable | api/controllers/category.controller.js:195-204 | with distinct ids, no chain of parent links from an item with a missing parent, or from an item on a loop of parent links, reaches an item without a parent |
| CategoryController.AncestryUnreachable | api/controllers/category.controller.js:195-204 | the same holds for every item whose ancestors lead to such an item |
| CategoryController.UnrootedLeftOut | api/controllers/category.controller.js:195-204 | an item whose ancestors lead to a missing parent or into a cycle of parent links appears nowhere in the hierarchy |
| PostCard.GetReadingTime | client/src/components/PostCard.jsx:10-15 | at least one minute |
| PostCard.ReadingTimeMatchesModel | client/src/components/PostCard.jsx:10-15 | the card's reading time equals the post model's `estimatedReadingTime` |
| PostCard.TruncateText | client/src/components/PostCard.jsx:17-20 | text within the limit is unchanged; longer text becomes its first maxLength characters followed by "..." |
| PostCard.DefaultTruncationBound | client/src/components/PostCard.jsx:17 | with the default limit a card shows at most 153 characters |
| CommentSection.HandleSubmit | client/src/components/CommentSection.jsx:17-43 | a draft over 200 characters does nothing; signed out, no request is sent and the error is recorded; a success clears the draft and error and puts the new comment in front of the others; a failed response changes nothing; a thrown error is recorded |
| CommentSection.HandleLike | client/src/components/CommentSection.jsx:60-86 | signed out, the list is unchanged and the user is sent to sign in; on success only comments with the id get the server's likes and their count |
| CommentSection.LikeKeepsSynced | client/src/components/CommentSection.jsx:71-81 | a like keeps each comment's like counter equal to its array length |
| CommentSection.HandleEdit | client/src/components/CommentSection.jsx:88-94 | only the matching comments' content changes |
| CommentSection.WithoutIdMembers | client/src/components/CommentSection.jsx:108 | the filter keeps exactly the comments with another id |
| CommentSection.WithoutIdAppend | client/src/components/CommentSection.jsx:108 | filtering distributes over concatenation, so the rest keep their order |
| CommentSection.WithoutIdAbsent | client/src/components/CommentSection.jsx:108 | deleting an id nobody has changes nothing |
| CommentSection.HandleDelete | client/src/components/CommentSection.jsx:96-113 | signed out, the list is unchanged and the user is sent to sign in; on success exactly the comments with the id are gone |
| Reports.GroupCount | api/controllers/analytics.controller.js:103-131 | `$group` with `$sum: 1`: one group per distinct key, each holding the key's exact number of occurrences |
| Reports.RankedCounts | api/controllers/analytics.controller.js:103-131 | `$group` then `$sort` by count descending: every key exactly once with its true count, largest counts first |
| Reports.TopCounts | api/controllers/analytics.controller.js:103-131 | `$sort` by count descending then `$limit`: at most n groups with distinct keys and true counts, in descending count order; a key is left out only when n groups are listed, each counting at least as much |
| Reports.CountsByKey | api/controllers/analytics.controller.js:134-150 | `$group` then `$sort` by key: every key present exactly once with its true count, in strictly ascending key order |
| Reports.TotalGroupCount | api/controllers/analytics.controller.js:103-150 | the group counts add up to the number of grouped events |
| Sorting.SortBy | api/controllers/category.controller.js:69-70 | the sort returns a permutation of its input that is sorted by the given order |
| Sorting.TakeSortedTop | api/controllers/category.controller.js:100-102 | the first n of a sorted list are a sub-multiset of it, and an element they leave out is preceded by all n of them |
| Text.Trim | api/utils/validation.js:99 | `trim()`: a slice of the input with whitespace removed only from the ends |
| Text.TrimTwice | api/utils/validation.js:99 | trimming is idempotent |
| Text.Lower | api/controllers/analytics.controller.js:260 | `toLowerCase()` on ASCII, character by character |
| Text.LowerTwice | api/controllers/analytics.controller.js:260 | lower-casing is idempotent |
| Text.ReplaceRuns | api/controllers/category.controller.js:15 | `replace(/[class]+/g, c)`: empty exactly for empty input and never longer |
| Text.ReplaceRunsSeparated | api/controllers/category.controller.js:15 | after the replacement no replacement character is followed by a class character |
| Text.ReplaceRunsRun | api/controllers/category.controller.js:15 | a run of class characters, however long, becomes one replacement character |
| Text.ReplaceRunsAppend | api/controllers/category.controller.js:15 | the replacement distributes over a concatenation that does not split a run, so each maximal run becomes one character in its place |
| Text.DropRunAppend | api/controllers/category.controller.js:15 | dropping a leading run stops at the first character outside the class, whatever follows |
| Text.Filter | api/utils/validation.js:34 | `replace(/[^class]/g, '')`: only kept characters, all of them when every character is kept |
| Text.FilterCount | api/utils/validation.js:34 | the filter keeps each kept character exactly as often as the input holds it, and no other |
| Text.FilterAppend | api/utils/validation.js:34 | the filter keeps the input order: it distributes over concatenation |
| Text.LowerAppend | api/controllers/category.controller.js:15 | `toLowerCase` works character by character: it distributes over concatenation |
| Text.CountCharAppend | api/models/post.model.js:113 | counting a character distributes over concatenation |

## Left out

- MongoDB itself is out of scope: `populate`, indexes, `$lookup`, uniqueness indexes and timestamps. Each collection is a sequence, and each aggregation pipeline is modelled as group, count, sort and take over it.
- `getCategoryStats` is out of scope, including its admin guard. It is a database join with nothing to state beyond the query.
- JWT signing and verification, bcrypt hashing and comparison, sessions, and the `isAuthenticated`/`isAdmin`/`isVerified`/`isActive` middleware are out of scope. They call foreign libraries or only read the request. The controllers take the admin flag as an input.
- `generateCSRFToken` is `generateSecureToken(32)` on 32 random bytes. Random bytes are an input, so it is the same function.
- `sanitizeHtml` is a function parameter of the content validators: its regular expressions use backtracking and lookahead. `validateImageUrl` (a URL parser) and `validateDateRange` (date parsing) are not modelled.
- The clock (`Date.now()`, `new Date()`) is the parameter `now`, in milliseconds. `crypto.getRandomValues` is the input byte sequence. The TTL index that expires analytics after a year is not modelled.
- Lower-casing is ASCII only. Lengths count characters, not UTF-16 code units. `parseInt` results are optional integers.
- Mongoose's `CastError` for malformed ids is not modelled. An unknown id is simply not found.
- The trim and lowercase setters are assumed to be applied when Mongoose casts a query value, as they are for a stored value. `CategoryController.FindActiveBySlug` and the duplicate check `CategoryController.NameOrSlugTaken` of `CategoryController.CreateCategory` rely on this.
- The category `icon`, `image` and `meta` fields, the post's SEO and images, the comment's moderation data, user agent and IP, the user's social links and other preferences, analytics `metadata` and screen size, and every message text are not modelled.
- The field projection of the category page's post query is not modelled: a listed post is the whole post record. Its one consequence, the failed serialisation, is modelled by `CategoryController.CategoryBySlugAsWritten`.
- Ties inside `$sort` are not constrained: the order of equal counts is not stated.
- An error thrown by a save becomes a generic thrown error, and the error middleware's status for it is not modelled.
- CategoryController.UpdateCategory: clearing `parentId` with an explicit null is not modelled. An update field is either supplied or left alone.
- CategoryController.UpdateCategory / CategoryController.Applied: an update body may set the two `stats` counters, each on its own; a body that sends a whole `stats` object replaces the nested object in MongoDB, and what then happens to a counter it leaves out is not modelled. Counters are integers, so a fractional number sent for one is not modelled. Body paths other than the ten modelled ones (`icon`, `image`, `meta`, `_id`, timestamps) are not modelled.
- CategoryController.HierarchyContents: assumes the category ids are distinct, as MongoDB's `_id` index guarantees. It states that an item appears in the tree exactly when its chain reaches a root, not that it appears exactly once. The recursion carries the path of ancestors as a ghost argument; its termination follows from that path never repeating an item.
- AnalyticsController.GetLocationFromIP: returns no location for every address, as the source does. The country breakdown is therefore always empty.
- AnalyticsController.DashboardStats: the day key of `$dateToString` is the day number since the epoch, not the formatted date string. For four-digit years both give the same order.
- React rendering, navigation, Redux and fetching are out of scope. Each comment handler takes the request's outcome and the signed-in flag as inputs and returns the new list, plus whether the user was sent to sign in.

## Findings

| source | as written | input that shows it | evidently intended | confidence | as-written member | corrected member |
|---|---|---|---|---|---|---|
| api/utils/validation.js:31-38 | the last step `.trim('-')` ignores its argument and removes only whitespace, so a leading or trailing hyphen survives | the title " a" gives "-a" | hyphens stripped from both ends of the slug | not executed | Validation.GenerateSlugKeepsLeadingHyphen | Validation.GenerateSlug |
| api/controllers/category.controller.js:95-102 | the posts are fetched with a projection that leaves out `content`, while the post schema serialises its virtuals and its `estimatedReadingTime` virtual (api/models/post.model.js:111-115) calls `this.content.split`, so serialising any listed post throws and the request ends in the error handler | an active category with one published post | the page lists the newest ten published posts of the category | not executed; medium (depends on Mongoose running virtual getters on a projected document) | CategoryController.CategoryBySlugAsWrittenFails | CategoryController.CategoryBySlug |
