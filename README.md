# secureapp blog core, modelled in Dafny

secureapp is a small blogging web application: people register, log in, and write text
posts that carry their user name as author. This project models its request-handling core:

- the post pages (`PostController`): listing, the creation form, and creating a post;
- the user registry (`CustomUserDetailsService`): sign-up and account lookup;
- the authentication pages (`AuthController`): sign-up outcome, login form, logout.

Files:

- `wrappers.dfy` (`Wrappers`): `Option` for Java's `null`, `Result` and `Outcome` for a
  value or a thrown exception's message.
- `script_strip.dfy` (`ScriptStrip`): the literal removal of `<script>` and `</script>`
  that `createPost` applies with `String.replaceAll`. The patterns hold no regular-expression
  metacharacters. So each call is a left-to-right scan that removes the leftmost occurrence,
  resumes right after it, and never rescans text that a removal joined together.
- `posts.dfy` (`Posts`): `PostController` as a class whose `posts` field is the post
  repository.
- `user_registry.dfy` (`UserRegistry`): the user table as a `map` from user name to account.
  It holds the pure lookup and registration functions and the class `CustomUserDetailsService`,
  whose `users` field is the user repository.
- `auth.dfy` (`Auth`): `AuthController`, over the registry and an explicit `principal`,
  the name held by the current request's security context.

Boundaries replaced by explicit values:

- The signed-in user's name, read in the source from the thread's security context, is a
  parameter of `CreatePost`, and a field `principal` of `AuthController`.
- The password encoder is a function of the password and a salt; BCrypt draws the salt at
  random, and here the salt is a parameter of registration.
- The flash attribute of a rejected post and the `error` model attribute of a failed sign-up
  are returned to the caller.

The code checks for emptiness before stripping, so a title that is just `<script>` passes
validation and is stored as the empty string (`Posts.ScriptOnlyTitleStoredEmpty`).

## Model

| member | source | states |
|---|---|---|
| `ScriptStrip.RemoveAll` | secureapp/src/main/java/com/example/secureapp/controller/PostController.java:43-44 | One literal `replaceAll(pat, "")` pass never makes the text longer. What it deletes and keeps is stated by `CutsAtOccurrences`. |
| `ScriptStrip.StripScriptTags` | secureapp/src/main/java/com/example/secureapp/controller/PostController.java:43-44 | Removing every `<script>` and then every `</script>` never makes a field longer. |
| `ScriptStrip.TagFreeUnchanged` | secureapp/src/main/java/com/example/secureapp/controller/PostController.java:43-44 | Text in which the pattern does not occur comes back unchanged. |
| `ScriptStrip.ContainsShrinks` | secureapp/src/main/java/com/example/secureapp/controller/PostController.java:43-44 | Text in which the pattern occurs comes back strictly shorter. |
| `ScriptStrip.UnchangedIffAbsent` | secureapp/src/main/java/com/example/secureapp/controller/PostController.java:43-44 | One pass leaves the text unchanged if and only if the pattern does not occur in it. |
| `ScriptStrip.StripUnchangedIffTagFree` | secureapp/src/main/java/com/example/secureapp/controller/PostController.java:43-44 | Stripping leaves a field unchanged if and only if it holds neither `<script>` nor `</script>`. |
| `ScriptStrip.CutsAtOccurrences` | secureapp/src/main/java/com/example/secureapp/controller/PostController.java:43-44 | A pass deletes whole contiguous occurrences of the pattern and nothing else, and it leaves no occurrence inside the text it keeps. The input is kept pieces with one copy of the pattern between each two, the output is those pieces in the same order, and no piece contains the pattern. |
| `ScriptStrip.StripRemovesOnlyTags` | secureapp/src/main/java/com/example/secureapp/controller/PostController.java:43-44 | Stripping deletes only whole `<script>` and `</script>` tags, and every tag its scans meet. The input is pieces free of `<script>` joined by `<script>`. Those pieces in order are pieces free of `</script>` joined by `</script>`. The stored text is the last pieces in order. |
| `ScriptStrip.KeepsLeadingText` | secureapp/src/main/java/com/example/secureapp/controller/PostController.java:43-44 | A prefix without the pattern's first character is kept as it is, and the scan continues after it. |
| `ScriptStrip.DropsLeadingTag` | secureapp/src/main/java/com/example/secureapp/controller/PostController.java:43-44 | A pattern at the front is deleted and the scan resumes right after it. |
| `ScriptStrip.AssembledTagSurvives` | secureapp/src/main/java/com/example/secureapp/controller/PostController.java:43-44 | The removal is not recursive. A tag split at any inner position around a second copy of itself comes out as one whole tag. |
| `ScriptStrip.StripIsNotRecursive` | secureapp/src/main/java/com/example/secureapp/controller/PostController.java:43-44 | `<scr<script>ipt>` is stored as `<script>`, which still contains the opening tag. |
| `ScriptStrip.SplitTextReassembles` | secureapp/src/main/java/com/example/secureapp/controller/PostController.java:43 | A `</script>` split around a `<script>` is reassembled by the `<script>` pass. |
| `ScriptStrip.SplitTextHoldsNoMatch` | secureapp/src/main/java/com/example/secureapp/controller/PostController.java:43 | The same split text holds no `</script>` for a `</script>` pass to remove. |
| `ScriptStrip.StripOrderMatters` | secureapp/src/main/java/com/example/secureapp/controller/PostController.java:43-44 | With the source's pass order `</scr<script>ipt>` is stored as empty text; the reverse order would leave `</script>`. |
| `ScriptStrip.StripsAroundText` | secureapp/src/main/java/com/example/secureapp/controller/PostController.java:43-44 | A script element with `<`-free text before, inside and after it is stored as that text with both tags removed. |
| `ScriptStrip.StripKeepsScriptBody` | secureapp/src/main/java/com/example/secureapp/controller/PostController.java:44 | `hello<script>alert(1)</script>world` is stored as `helloalert(1)world`. |
| `Posts.Sanitized` | secureapp/src/main/java/com/example/secureapp/controller/PostController.java:43-47 | The stored post's author is the signed-in principal, and neither stripped field is longer than it was submitted. |
| `Posts.PostController.ListPosts` | secureapp/src/main/java/com/example/secureapp/controller/PostController.java:26-29 | The model attribute `posts` is the whole store, unchanged, and the view is `posts`. |
| `Posts.PostController.ShowCreateForm` | secureapp/src/main/java/com/example/secureapp/controller/PostController.java:32-34 | The view is `createPost`. |
| `Posts.PostController.CreatePost` | secureapp/src/main/java/com/example/secureapp/controller/PostController.java:36-49 | A null or empty title or content saves nothing, sets the flash error `Title and Content cannot be empty` and redirects to `/posts/create`. Otherwise exactly the stripped post written by the principal is appended, nothing earlier changes, no flash is set, and the result redirects to `/posts`. |
| `Posts.ScriptOnlyTitleStoredEmpty` | secureapp/src/main/java/com/example/secureapp/controller/PostController.java:37-44 | Validation comes before stripping: the title `<script>` is accepted and stored as the empty string. |
| `Posts.TagFreeFieldsStoredVerbatim` | secureapp/src/main/java/com/example/secureapp/controller/PostController.java:43-47 | Fields that hold neither tag are stored exactly as submitted. |
| `UserRegistry.Lookup` | secureapp/src/main/java/com/example/secureapp/service/CustomUserDetailsService.java:23-33 | Lookup fails if and only if the name has no account or its stored name is empty. For a missing account the message is `User not found: ` followed by the name; for an empty stored name it is the details builder's `Cannot pass null or empty values to constructor`. Otherwise it returns the stored name and hash unchanged with the single role `USER`. |
| `UserRegistry.Register` | secureapp/src/main/java/com/example/secureapp/service/CustomUserDetailsService.java:35-42 | Registration fails if and only if the name is taken, with `Username already taken!`. Otherwise it adds exactly one entry, holding the name and the encoded password, and every other entry is unchanged. |
| `UserRegistry.RegisterPreservesKeyed` | secureapp/src/main/java/com/example/secureapp/service/CustomUserDetailsService.java:35-42 | Registration keeps every account filed under its own name, so a name has at most one account. |
| `UserRegistry.RegisterThenLookup` | secureapp/src/main/java/com/example/secureapp/service/CustomUserDetailsService.java:24-41 | After registering a free, non-empty name, looking it up returns the name, the hash stored at registration, and role `USER`. |
| `UserRegistry.EmptyNameRegistersButCannotLoad` | secureapp/src/main/java/com/example/secureapp/service/CustomUserDetailsService.java:24-41 | The empty name is accepted at registration, but loading that account fails with the details builder's error rather than the not-found message. |
| `UserRegistry.RegisterKeepsOtherLookups` | secureapp/src/main/java/com/example/secureapp/service/CustomUserDetailsService.java:39-41 | A registration does not change the lookup of any other name. |
| `UserRegistry.LookupFindsQueriedName` | secureapp/src/main/java/com/example/secureapp/service/CustomUserDetailsService.java:28-32 | Under the keying invariant, a successful lookup is of the account that was asked for. |
| `UserRegistry.Replay` | secureapp/src/main/java/com/example/secureapp/service/CustomUserDetailsService.java:35-42 | After a series of sign-ups the table's names are the earlier ones plus those asked for, and no existing account is overwritten. |
| `UserRegistry.ReplayPreservesKeyed` | secureapp/src/main/java/com/example/secureapp/service/CustomUserDetailsService.java:35-42 | A series of sign-ups keeps the at-most-one-account-per-name invariant. |
| `UserRegistry.FirstSignupWins` | secureapp/src/main/java/com/example/secureapp/service/CustomUserDetailsService.java:36-41 | After a series of sign-ups, a free non-empty name resolves to the hash of the first request for it; later requests for the same name change nothing. |
| `UserRegistry.CustomUserDetailsService.LoadUserByUsername` | secureapp/src/main/java/com/example/secureapp/service/CustomUserDetailsService.java:23-33 | Returns what `Lookup` gives on the current table, including the empty-name failure, without changing the table. A success names the account asked for. |
| `UserRegistry.CustomUserDetailsService.RegisterUser` | secureapp/src/main/java/com/example/secureapp/service/CustomUserDetailsService.java:35-42 | The new table and outcome are exactly those of `Register` applied to the old table and the password encoded under the salt. A failure leaves the table unchanged, and the keying invariant holds afterwards. |
| `Auth.AuthController.ShowRegister` | secureapp/src/main/java/com/example/secureapp/controller/AuthController.java:19-21 | The view is `register`. |
| `Auth.AuthController.ShowLogin` | secureapp/src/main/java/com/example/secureapp/controller/AuthController.java:35-37 | The view is `login`. |
| `Auth.AuthController.RegisterUser` | secureapp/src/main/java/com/example/secureapp/controller/AuthController.java:24-32 | Success redirects to `/login` with no error. Failure shows view `register` with the failure's message as `error` and the registry unchanged. So a taken name gives `register` with `Username already taken!` and no new account. |
| `Auth.AuthController.Logout` | secureapp/src/main/java/com/example/secureapp/controller/AuthController.java:40-43 | Afterwards the request's security context holds no principal, the registry is unchanged, and the result redirects to `/login`. |

## Left out

- `SecurityConfig`, which is pure framework configuration, is not part of this model. That
  covers session-fixation migration, the one-session-per-user cap, the expiry redirect, the
  form-login success URL, the logout filter and the route allow-list. The model assumes the
  allow-list: every route except `/`, `/register`, `/login`, `/styles.css` and `/static/**`
  is reached only by a signed-in user. That is why `CreatePost` takes the principal's name as
  a plain `string`. The source's null-pointer failure when no one is signed in is therefore
  not modelled.
- BCrypt hashing lives in a library. It is the `encode` function of the registry, with the
  salt made explicit. Nothing is claimed about it, in particular not that a hash differs
  from its password. The model's `encode` is total and cannot fail. Some versions of the
  encoder reject passwords longer than 72 bytes with an `IllegalArgumentException`.
  `AuthController.registerUser` would catch that one too and show `register` with its
  message; the model does not have this failure.
- The JPA repositories (`findAll`, `findByUsername`, `save`) are the `posts` sequence and the
  `users` map; failures of the database are not modelled. In the model, registration can
  therefore fail only because the name is taken.
- `findAll` promises no order. The model lists posts in the order they were saved; that
  order is the model's choice, not a promise of the source.
- Request binding, view rendering and carrying flash and model attributes across a redirect
  are not modelled. The model records only the view name or redirect and the message. A
  request that lacks the `title` or `content` parameter is answered with status 400 by the
  framework before `createPost` runs; `None` stands for a `null` that reaches the check.
- The framework's `User` builder that `loadUserByUsername` calls lives in a library. Of its
  checks only the one that can fail here is modelled, in `Lookup`: the name must not be empty.
  The stored password is never null.
- Concurrent requests are not modelled, including the race between the check and the save of
  `registerUser`. The uniqueness results hold for requests served one after another.
- Java's regular-expression engine is not modelled: `replaceAll` with these two
  metacharacter-free patterns is the literal removal `RemoveAll`.
- Authentication itself (comparing a submitted password with the stored hash) happens in the
  framework. The model stops at the details `loadUserByUsername` hands over.
