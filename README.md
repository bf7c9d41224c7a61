# sustc-api service core in Dafny

A model of the domain layer of sustc-api, a recipe-sharing back end. It has three
services over a PostgreSQL database: users who follow each other, recipes with
ingredients, and reviews with likes. A bulk importer loads the initial data.

Every service call is read as one atomic step over an in-memory database:

- `StoreModel` holds the tables: users, follows, recipe, ingredient (with its serial),
  has_ingredient, review and likes_review. They live as `map`/`set` fields of one
  `Store` class. `Intact` states the schema's primary keys, foreign keys and the
  gender check constraint. It also requires that no follow edge touches a deleted
  account.
- Two invariants sit beside `Intact`:
  - `CountersConsistent`: each user's `followers`/`following` equal the in- and
    out-degree of `follows`.
  - `RatingsConsistent`: each recipe's `reviewCnt` equals the number of its reviews,
    and `aggrRating` equals their mean in hundredths rounded half up, or none when
    there are no reviews.

  Every state-changing method states its whole new state as an update of the old
  snapshot and shows that these invariants are preserved.
- Errors mirror the two exception types the services throw: `SecurityError` for
  `SecurityException` and `IllegalArgument` for `IllegalArgumentException`.
  `IntegrityViolation` stands for a statement the database rejects, which rolls back
  the transaction. `QueryRejected` stands for a query PostgreSQL refuses outright, as it
  does for a negative `OFFSET`.
- Fresh ids are `COALESCE(MAX(id), 0) + 1` (`Sets.NextId`), which is never a stored id.
- Orderings are keys compared lexicographically, with the id as the last key, so each
  is a total order. `Ordering.SortedPage` is the `ORDER BY ... LIMIT size OFFSET
  lo` window, and `Ordering.Offset` is the offset the services pass: `(page-1)*size`
  computed in Java's 32-bit `int`, which wraps for large pages. Each query's contract gives every returned row its rank among
  all matching rows.
- `Durations` is the part of ISO 8601 durations used for recipe times:
  `P[nD][T[nH][nM][nS]]`, printed the way `java.time.Duration.toString` prints. The
  printed form is proved to parse back to the same amount.
- `BulkImport` models how `executeBulkInsert` cuts a record list into statements and
  numbers their parameters. It also models the deduplicated follow, has_ingredient and
  like lists that `importData` builds, and the ingredient name-to-id map it fills.

## Model

| member | source | states |
|---|---|---|
| StoreModel.Store.constructor | sustc-api/src/main/java/io/sustc/service/impl/DatabaseServiceImpl.java:217-249 | the freshly created tables are empty and satisfy every key, foreign key and check constraint |
| StoreModel.IncomingInsert | sustc-api/src/main/java/io/sustc/service/impl/ReviewServiceImpl.java:141-144 | adding a like (or follow edge) that was absent raises the target's count by exactly one, and no other count |
| StoreModel.IncomingDelete | sustc-api/src/main/java/io/sustc/service/impl/ReviewServiceImpl.java:160-161 | removing a present like (or follow edge) lowers the target's count by exactly one, and no other count |
| StoreModel.OutgoingInsert | sustc-api/src/main/java/io/sustc/service/impl/UserServiceImpl.java:162-164 | inserting an absent edge raises the source's out-degree by exactly one |
| StoreModel.OutgoingDelete | sustc-api/src/main/java/io/sustc/service/impl/UserServiceImpl.java:157-159 | deleting a present edge lowers the source's out-degree by exactly one |
| StoreModel.RoundAverageNearest | sustc-api/src/main/java/io/sustc/service/impl/ReviewServiceImpl.java:223-229 | the stored aggregate is the average rating in hundredths rounded half up: within half a hundredth of the exact mean, ties rounded up |
| StoreModel.SumRatingsRemove | sustc-api/src/main/java/io/sustc/service/impl/ReviewServiceImpl.java:225 | the rating sum over a review set splits off any one review |
| StoreModel.SumRatingsBounds | sustc-api/src/main/java/io/sustc/service/impl/ReviewServiceImpl.java:225 | with ratings in 1..5 the sum of n ratings lies in n..5n |
| StoreModel.RoundAverageRange | sustc-api/src/main/java/io/sustc/service/impl/ReviewServiceImpl.java:225 | the rounded mean of n ratings in 1..5 lies in 1.00..5.00 |
| StoreModel.AggregateRange | sustc-api/src/main/java/io/sustc/service/impl/ReviewServiceImpl.java:223-229 | the aggregate of a recipe, when present, lies in 1.00..5.00 |
| StoreModel.AggregateFrame | sustc-api/src/main/java/io/sustc/service/impl/ReviewServiceImpl.java:223-229 | the aggregate depends only on the ratings of the recipe's own reviews |
| StoreModel.ReviewsOf | sustc-api/src/main/java/io/sustc/service/impl/ReviewServiceImpl.java:226 | the counted reviews are stored reviews of that recipe |
| Sets.NextId | sustc-api/src/main/java/io/sustc/service/impl/UserServiceImpl.java:52 | COALESCE(MAX(id),0)+1 is above every stored id, hence unused, and is 1 for an empty table |
| Sets.MaxOrZero | sustc-api/src/main/java/io/sustc/service/impl/UserServiceImpl.java:52 | COALESCE(MAX(id),0): 0 for an empty table, otherwise a stored id that bounds all others |
| Ordering.Sort | sustc-api/src/main/java/io/sustc/service/impl/UserServiceImpl.java:240 | ORDER BY with a total key: the result lists exactly the matching ids, once each, in strictly increasing key order |
| Ordering.Least | sustc-api/src/main/java/io/sustc/service/impl/UserServiceImpl.java:240 | the row an ORDER BY puts first: a member of the set whose key is below every other member's |
| Ordering.SortRank | sustc-api/src/main/java/io/sustc/service/impl/UserServiceImpl.java:240-243 | the k-th row of the ordered result has rank k among the matches |
| Ordering.Offset | sustc-api/src/main/java/io/sustc/service/impl/UserServiceImpl.java:243 | the OFFSET argument is (page-1)*size as a Java int: within the 32-bit range and congruent to the exact product modulo 2^32 |
| Ordering.OffsetExact | sustc-api/src/main/java/io/sustc/service/impl/UserServiceImpl.java:243 | while the product fits in an int the offset is the product itself |
| Ordering.OffsetWraps | sustc-api/src/main/java/io/sustc/service/impl/ReviewServiceImpl.java:200 | page 1073741825 gives offset -2^31 with size 2 and offset 0 with size 4 |
| Ordering.RankOfSorted | sustc-api/src/main/java/io/sustc/service/impl/UserServiceImpl.java:240-243 | in any list sorted by distinct keys that holds exactly the matching ids, position k holds the id with rank k |
| Ordering.Window | sustc-api/src/main/java/io/sustc/service/impl/UserServiceImpl.java:241-243 | LIMIT size OFFSET lo: the rows from position lo on, at most size of them, empty past the end |
| Ordering.WindowCovers | sustc-api/src/main/java/io/sustc/service/impl/UserServiceImpl.java:241-243 | row i of the ordered result is entry i mod size of the window at offset (i div size)*size, so paging through shows every row |
| Ordering.PageRank | sustc-api/src/main/java/io/sustc/service/impl/UserServiceImpl.java:241-243 | row i of the window at offset lo has rank lo+i among the matches |
| Ordering.SortedPage | sustc-api/src/main/java/io/sustc/service/impl/UserServiceImpl.java:240-243 | a page of ordered ids at offset lo has the windowed length, rank lo+i at position i, and increasing keys |
| Ordering.TieBreakTotal | sustc-api/src/main/java/io/sustc/service/impl/RecipeServiceImpl.java:146-148 | with the id as last key any two distinct rows are ordered one way or the other |
| Ordering.RankMonotone | sustc-api/src/main/java/io/sustc/service/impl/UserServiceImpl.java:240 | a smaller key gives a smaller rank |
| Ordering.RankCompare | sustc-api/src/main/java/io/sustc/service/impl/UserServiceImpl.java:240 | of two distinct rows, the one with the smaller rank does not have the larger key |
| Ordering.FirstPageLeads | sustc-api/src/main/java/io/sustc/service/impl/RecipeServiceImpl.java:372-373 | every row left off the first page has a larger key than every row on it |
| Ordering.Listed | sustc-api/src/main/java/io/sustc/service/impl/UserServiceImpl.java:119-127 | the ids a query returns, each exactly once; the queries have no ORDER BY, so ascending order is the model's choice and the update loops over them do not depend on it |
| Durations.DigitPrefix | sustc-api/src/main/java/io/sustc/service/impl/RecipeServiceImpl.java:386-387 | the digit run at the head of a duration section is maximal |
| Durations.Section | sustc-api/src/main/java/io/sustc/service/impl/RecipeServiceImpl.java:386-387 | a parsed section consumes at least one character |
| Durations.NatToString | sustc-api/src/main/java/io/sustc/service/impl/RecipeServiceImpl.java:390 | a printed amount is a non-empty digit string |
| Durations.NatToStringValue | sustc-api/src/main/java/io/sustc/service/impl/RecipeServiceImpl.java:390 | printing an amount and reading it back gives the amount |
| Durations.DigitPrefixOf | sustc-api/src/main/java/io/sustc/service/impl/RecipeServiceImpl.java:386-387 | reading digits stops exactly where the printed digits end |
| Durations.SectionOfPrinted | sustc-api/src/main/java/io/sustc/service/impl/RecipeServiceImpl.java:386-387 | a printed section with its designator parses back to its amount and the rest |
| Durations.SectionOfOther | sustc-api/src/main/java/io/sustc/service/impl/RecipeServiceImpl.java:386-387 | a printed section is not read under another designator |
| Durations.SectionOfNonDigit | sustc-api/src/main/java/io/sustc/service/impl/RecipeServiceImpl.java:386-387 | no section starts without a digit |
| Durations.SplitSeconds | sustc-api/src/main/java/io/sustc/service/impl/RecipeServiceImpl.java:390 | seconds split into hours, minutes and seconds recombine to the same amount |
| Durations.SecondsStep | sustc-api/src/main/java/io/sustc/service/impl/RecipeServiceImpl.java:390 | a printed seconds section parses back, and an absent one is absent |
| Durations.MinutesStep | sustc-api/src/main/java/io/sustc/service/impl/RecipeServiceImpl.java:390 | a printed minutes section parses back and leaves the seconds section |
| Durations.HoursStep | sustc-api/src/main/java/io/sustc/service/impl/RecipeServiceImpl.java:390 | a printed hours section parses back and leaves the minutes and seconds sections |
| Durations.TimeSectionsOf | sustc-api/src/main/java/io/sustc/service/impl/RecipeServiceImpl.java:386-388 | the time part H, M and S sections sum to h*3600+m*60+s seconds |
| Durations.TimeSectionsPrinted | sustc-api/src/main/java/io/sustc/service/impl/RecipeServiceImpl.java:390 | a printed time part parses to the amount it was printed from |
| Durations.ParseTime | sustc-api/src/main/java/io/sustc/service/impl/RecipeServiceImpl.java:386-387 | a PT-prefixed duration is read by its time sections |
| Durations.ParsePrinted | sustc-api/src/main/java/io/sustc/service/impl/RecipeServiceImpl.java:390 | a printed non-zero duration parses to its seconds |
| Durations.ParseZero | sustc-api/src/main/java/io/sustc/service/impl/RecipeServiceImpl.java:386-389 | the zero duration PT0S parses to zero |
| Durations.Parse | sustc-api/src/main/java/io/sustc/service/impl/RecipeServiceImpl.java:268-269 | Duration.parse accepts a text exactly when it denotes an amount that fits in a long number of seconds, and yields that amount; a section or sum past Long.MAX_VALUE is rejected |
| Durations.FormatAmount | sustc-api/src/main/java/io/sustc/service/impl/RecipeServiceImpl.java:390 | the printed text of any amount denotes that amount |
| Durations.ParseOverflow | sustc-api/src/main/java/io/sustc/service/impl/RecipeServiceImpl.java:386-387 | a duration printed from more than Long.MAX_VALUE seconds is rejected by Duration.parse |
| Durations.ParseFormat | sustc-api/src/main/java/io/sustc/service/impl/RecipeServiceImpl.java:388-390 | Duration.toString followed by Duration.parse gives back the amount, for every amount up to Long.MAX_VALUE seconds |
| Durations.Format | sustc-api/src/main/java/io/sustc/service/impl/RecipeServiceImpl.java:390 | Duration.toString of whole seconds: always a PT text of at least four characters, and exactly PT0S for zero |
| UserService.Login | sustc-api/src/main/java/io/sustc/service/impl/UserServiceImpl.java:82-99 | the id is returned only for an existing, live account whose non-empty password matches exactly; -1 otherwise |
| UserService.NewUser | sustc-api/src/main/java/io/sustc/service/impl/UserServiceImpl.java:54-57 | the inserted user carries the request's name, password and age, an allowed gender, zero counters and is live |
| UserService.RegisteredCanLogin | sustc-api/src/main/java/io/sustc/service/impl/UserServiceImpl.java:52-59 | after a registration the new id logs in with the registered password |
| UserService.NoEdgesOfStranger | sustc-api/src/main/java/io/sustc/service/impl/DatabaseServiceImpl.java:224-226 | an id that is not a user has no follow edges |
| UserService.Register | sustc-api/src/main/java/io/sustc/service/impl/UserServiceImpl.java:31-59 | -1 and no change on an empty name or password, a null or UNKNOWN gender, an empty or unparseable birthday, age <= 0 or a taken name; otherwise inserts max+1 with zero counters, live, and returns it; invariants kept |
| UserService.ToggleFollow | sustc-api/src/main/java/io/sustc/service/impl/UserServiceImpl.java:153-166 | the edge (follower, followee) flips, every other edge and every other user is untouched |
| UserService.ToggleTwice | sustc-api/src/main/java/io/sustc/service/impl/UserServiceImpl.java:153-166 | following twice restores the users and the edges |
| UserService.ToggleKeepsCounters | sustc-api/src/main/java/io/sustc/service/impl/UserServiceImpl.java:153-166 | after a toggle every user's followers/following equal its in/out degree |
| UserService.ToggleKeepsIntact | sustc-api/src/main/java/io/sustc/service/impl/UserServiceImpl.java:153-166 | a toggle between two live users keeps keys, foreign keys and counters |
| UserService.Follow | sustc-api/src/main/java/io/sustc/service/impl/UserServiceImpl.java:137-167 | SecurityError on bad auth or self-follow; Ok(false) and no change for a missing or deleted followee; otherwise the toggle, returning whether the edge is now present; counters stay equal to degrees |
| UserService.ToggleRows | sustc-api/src/main/java/io/sustc/service/impl/UserServiceImpl.java:156-165 | the three row updates of a toggle produce exactly ToggleFollow's tables |
| UserService.Unfollowed | sustc-api/src/main/java/io/sustc/service/impl/UserServiceImpl.java:129 | the follows table without every edge touching the user |
| UserService.LoseFollower | sustc-api/src/main/java/io/sustc/service/impl/UserServiceImpl.java:119-122 | each listed blogger loses one follower, nobody else changes |
| UserService.LoseFollowing | sustc-api/src/main/java/io/sustc/service/impl/UserServiceImpl.java:124-127 | each listed follower follows one fewer, nobody else changes |
| UserService.AfterDeleteSpec | sustc-api/src/main/java/io/sustc/service/impl/UserServiceImpl.java:117-130 | the deleted user is marked deleted with zero counters; every other user loses one per edge shared with them |
| UserService.AfterDelete | sustc-api/src/main/java/io/sustc/service/impl/UserServiceImpl.java:117-130 | the users table after deleteAccount: the account stays, marked deleted, with both counters zero |
| UserService.UnfollowedIncoming | sustc-api/src/main/java/io/sustc/service/impl/UserServiceImpl.java:119-129 | after removing a user's edges another user's follower count drops by one exactly if the removed user followed them |
| UserService.UnfollowedOutgoing | sustc-api/src/main/java/io/sustc/service/impl/UserServiceImpl.java:124-129 | after removing a user's edges another user's following count drops by one exactly if they followed the removed user |
| UserService.DeleteKeepsCounters | sustc-api/src/main/java/io/sustc/service/impl/UserServiceImpl.java:117-130 | deleting an account keeps every counter equal to the degrees |
| UserService.DeleteKeepsIntact | sustc-api/src/main/java/io/sustc/service/impl/UserServiceImpl.java:117-130 | deleting an account keeps the constraints and leaves no edge at a deleted user |
| UserService.Bloggers | sustc-api/src/main/java/io/sustc/service/impl/UserServiceImpl.java:119 | the bloggers the user follows |
| UserService.Fans | sustc-api/src/main/java/io/sustc/service/impl/UserServiceImpl.java:124 | the followers of the user |
| UserService.DropFollowers | sustc-api/src/main/java/io/sustc/service/impl/UserServiceImpl.java:120-122 | the loop over the followed bloggers decrements each one's followers once |
| UserService.DropFollowing | sustc-api/src/main/java/io/sustc/service/impl/UserServiceImpl.java:125-127 | the loop over the followers decrements each one's following once |
| UserService.DeleteAccount | sustc-api/src/main/java/io/sustc/service/impl/UserServiceImpl.java:103-133 | SecurityError on bad auth or another user's id; otherwise marks deleted, adjusts the neighbours' counters, removes all edges of the user and zeroes its counters, returning true; the account can no longer log in |
| UserService.RemoveAccountRows | sustc-api/src/main/java/io/sustc/service/impl/UserServiceImpl.java:117-130 | the row updates of a deletion produce exactly AfterDelete and Unfollowed |
| UserService.DeletedUsers | sustc-api/src/main/java/io/sustc/service/impl/UserServiceImpl.java:117-130 | the mark, the two decrement loops and the counter reset leave exactly the users table AfterDelete describes |
| UserService.GetById | sustc-api/src/main/java/io/sustc/service/impl/UserServiceImpl.java:170-177 | the row of an existing user, deleted or not; null for a missing id |
| UserService.GetByIdDeleted | sustc-api/src/main/java/io/sustc/service/impl/UserServiceImpl.java:170-177 | after deleteAccount getById still returns the account, marked deleted with both counters zero and every other field unchanged |
| UserService.GetByIdRegistered | sustc-api/src/main/java/io/sustc/service/impl/UserServiceImpl.java:170-177 | after register the new id returns the inserted row and every other id what it returned before |
| UserService.UpdatedProfile | sustc-api/src/main/java/io/sustc/service/impl/UserServiceImpl.java:187-199 | gender is replaced only by a non-empty value, age by any present value (including <= 0); nothing else changes |
| UserService.UpdateProfile | sustc-api/src/main/java/io/sustc/service/impl/UserServiceImpl.java:181-208 | SecurityError on bad auth; otherwise only the given fields of the caller's row change (a gender outside the check constraint is rejected by the database) |
| UserService.FeedMatches | sustc-api/src/main/java/io/sustc/service/impl/UserServiceImpl.java:220-235 | recipes whose author the caller follows, in the given category when one is given |
| UserService.FeedKeys | sustc-api/src/main/java/io/sustc/service/impl/UserServiceImpl.java:240 | date_published DESC (NULL first) then recipe_id DESC: a total order |
| UserService.ClampPage | sustc-api/src/main/java/io/sustc/service/impl/UserServiceImpl.java:216 | a page below 1 becomes exactly 1; any other page is kept |
| UserService.ClampSize | sustc-api/src/main/java/io/sustc/service/impl/UserServiceImpl.java:217-218 | size <= 0 becomes 10, above 200 becomes 200 |
| UserService.Feed | sustc-api/src/main/java/io/sustc/service/impl/UserServiceImpl.java:211-253 | SecurityError on bad auth; QueryRejected when the 32-bit offset of the clamped page and size is negative; otherwise the clamped page of the followed authors' recipes in feed order from that offset, with the total over the same filter |
| UserService.RatioCandidates | sustc-api/src/main/java/io/sustc/service/impl/UserServiceImpl.java:260 | live users following at least one user |
| UserService.RatioTransitive | sustc-api/src/main/java/io/sustc/service/impl/UserServiceImpl.java:258-261 | comparing followers/following by cross-multiplication is transitive |
| UserService.RanksBeforeTransitive | sustc-api/src/main/java/io/sustc/service/impl/UserServiceImpl.java:261 | ratio DESC then id ASC is transitive |
| UserService.FirstByRatio | sustc-api/src/main/java/io/sustc/service/impl/UserServiceImpl.java:261-262 | the chosen candidate ranks before every other candidate |
| UserService.RanksBeforeAll | sustc-api/src/main/java/io/sustc/service/impl/UserServiceImpl.java:261 | a candidate ahead of the best of the rest is ahead of all of them |
| UserService.HighestFollowRatio | sustc-api/src/main/java/io/sustc/service/impl/UserServiceImpl.java:256-275 | null when no candidate; otherwise a candidate with its name and counters whose ratio is maximal, the smallest id among ties |
| IngredientLinking.IngredientNames | sustc-api/src/main/java/io/sustc/service/impl/RecipeServiceImpl.java:69-77 | the names linked to a recipe are stored ingredient names |
| IngredientLinking.LinkStepSpec | sustc-api/src/main/java/io/sustc/service/impl/RecipeServiceImpl.java:219-228 | one name: reuse or insert the ingredient with the next serial, then add the link; fails exactly when the link exists |
| IngredientLinking.LinkStep | sustc-api/src/main/java/io/sustc/service/impl/RecipeServiceImpl.java:219-228 | one iteration only adds: stored ingredients keep their ids, links are kept, the serial grows by at most one, and a non-blank name ends up stored |
| IngredientLinking.Link | sustc-api/src/main/java/io/sustc/service/impl/RecipeServiceImpl.java:217-230 | the whole loop only adds ingredients and links, keeps stored ids, and does nothing once a statement has failed |
| IngredientLinking.LinkFoundSpec | sustc-api/src/main/java/io/sustc/service/impl/RecipeServiceImpl.java:221-228 | a name already stored keeps its id and the serial; the link insert fails exactly when the recipe already has that name |
| IngredientLinking.LinkInsertSpec | sustc-api/src/main/java/io/sustc/service/impl/RecipeServiceImpl.java:221-228 | a missing name is inserted under serial + 1, an id no link uses yet, so the link insert succeeds and adds exactly that name |
| IngredientLinking.LinkKeeps | sustc-api/src/main/java/io/sustc/service/impl/RecipeServiceImpl.java:217-230 | the loop never changes or removes an existing ingredient, keeps ids unique and never moves the serial back |
| IngredientLinking.LinkOk | sustc-api/src/main/java/io/sustc/service/impl/RecipeServiceImpl.java:217-230 | the loop succeeds exactly when no non-blank name is listed twice and none is already linked |
| IngredientLinking.LinkAdds | sustc-api/src/main/java/io/sustc/service/impl/RecipeServiceImpl.java:217-230 | after a successful loop the vocabulary and the recipe's linked names grow by exactly the listed non-blank names |
| IngredientLinking.LinksSplit | sustc-api/src/main/java/io/sustc/service/impl/RecipeServiceImpl.java:228 | the link set of one more name adds exactly that name's link |
| IngredientLinking.LinkPairs | sustc-api/src/main/java/io/sustc/service/impl/RecipeServiceImpl.java:217-230 | a successful loop adds exactly one has_ingredient row per listed non-blank name |
| RecipeService.NewRecipe | sustc-api/src/main/java/io/sustc/service/impl/RecipeServiceImpl.java:204-215 | the inserted recipe: the caller as author, the given fields, published now, no rating and zero reviews, and the record's calories, never null |
| RecipeService.CreatedHasCalories | sustc-api/src/main/java/io/sustc/service/impl/RecipeServiceImpl.java:210-213 | a created recipe always has calories, so it joins the closest-pair candidates with the draft's value |
| RecipeService.LinkParts | sustc-api/src/main/java/io/sustc/service/impl/RecipeServiceImpl.java:217-230 | the ingredient loop leaves exactly the tables Link computes |
| RecipeService.CreateKeepsIntact | sustc-api/src/main/java/io/sustc/service/impl/RecipeServiceImpl.java:202-230 | inserting the recipe and its links keeps every constraint and the rating invariant |
| RecipeService.CreateLinkOutcome | sustc-api/src/main/java/io/sustc/service/impl/RecipeServiceImpl.java:217-230 | for a fresh recipe id the ingredient loop fails exactly when a non-blank name is listed twice, and the serial never moves back |
| RecipeService.CreateLinkTables | sustc-api/src/main/java/io/sustc/service/impl/RecipeServiceImpl.java:202-230 | after a successful loop the tables with the new recipe row keep every constraint and the recipe is linked to exactly the listed names |
| RecipeService.CreateRatings | sustc-api/src/main/java/io/sustc/service/impl/RecipeServiceImpl.java:204-214 | a recipe inserted with a null rating and a zero count keeps every recipe's rating summary consistent |
| RecipeService.CreateRecipe | sustc-api/src/main/java/io/sustc/service/impl/RecipeServiceImpl.java:193-233 | SecurityError on bad auth, IllegalArgument on a null/empty name; otherwise id max+1 with its links, readable back with exactly the listed names; a repeated name breaks the has_ingredient key and rolls back all but the serial |
| RecipeService.ReviewsWithout | sustc-api/src/main/java/io/sustc/service/impl/RecipeServiceImpl.java:254 | review table without the recipe's reviews |
| RecipeService.LikesWithout | sustc-api/src/main/java/io/sustc/service/impl/RecipeServiceImpl.java:253 | likes table without the likes of the recipe's reviews |
| RecipeService.LinksWithout | sustc-api/src/main/java/io/sustc/service/impl/RecipeServiceImpl.java:255 | has_ingredient without the recipe's links |
| RecipeService.DeleteRecipeKeepsIntact | sustc-api/src/main/java/io/sustc/service/impl/RecipeServiceImpl.java:253-256 | the cascade keeps every constraint and the rating invariant |
| RecipeService.DeleteRecipe | sustc-api/src/main/java/io/sustc/service/impl/RecipeServiceImpl.java:237-257 | SecurityError on bad auth or a non-author, IllegalArgument on a missing recipe; otherwise likes, reviews, links and recipe removed; getRecipeById then returns null |
| RecipeService.WithTimes | sustc-api/src/main/java/io/sustc/service/impl/RecipeServiceImpl.java:284-293 | only the non-null times change |
| RecipeService.UpdateTimes | sustc-api/src/main/java/io/sustc/service/impl/RecipeServiceImpl.java:261-302 | validates both durations (a duration past Long.MAX_VALUE seconds is invalid) before the author check; SecurityError/IllegalArgument in source order; otherwise only the given times are written and read back as the parsed amounts |
| RecipeQueries.GetNameFromId | sustc-api/src/main/java/io/sustc/service/impl/RecipeServiceImpl.java:33-40 | the recipe's name, or null when missing |
| RecipeService.GetNameFromIdCreated | sustc-api/src/main/java/io/sustc/service/impl/RecipeServiceImpl.java:33-40 | after createRecipe the new id yields the draft's name and every other id what it yielded before |
| RecipeService.GetNameFromIdDeleted | sustc-api/src/main/java/io/sustc/service/impl/RecipeServiceImpl.java:33-40 | after deleteRecipe the deleted id yields null and every other id what it yielded before |
| RecipeQueries.TotalTime | sustc-api/src/main/java/io/sustc/service/impl/RecipeServiceImpl.java:384-394 | null when either duration fails to parse, the sum passes Long.MAX_VALUE seconds (Duration.plus overflows) or the sum is zero; otherwise a duration that parses to the sum, null/empty counting as zero |
| RecipeQueries.Seconds | sustc-api/src/main/java/io/sustc/service/impl/RecipeServiceImpl.java:386-387 | a null or empty time counts as zero; any parsed time fits in a long number of seconds |
| RecipeQueries.PrintedSum | sustc-api/src/main/java/io/sustc/service/impl/RecipeServiceImpl.java:388-390 | the printed sum of two parsed times parses back to the sum; null when a time is missing, the sum is zero or it passes Long.MAX_VALUE seconds |
| RecipeQueries.GetRecipeById | sustc-api/src/main/java/io/sustc/service/impl/RecipeServiceImpl.java:43-83 | null for a missing recipe; otherwise exactly `View` of it: every stored field, the author's name or null, zero for a null rating or calories, exactly the linked ingredient names and the total time |
| RecipeQueries.View | sustc-api/src/main/java/io/sustc/service/impl/RecipeServiceImpl.java:43-83 | the returned row: the recipe's id, author, name, publication date, both times, description, category and review count as stored; the author's name, null when the author row is missing; the total time of the two times; zero for a null rating or null calories; exactly the names linked to it |
| RecipeQueries.Fold | sustc-api/src/main/java/io/sustc/service/impl/RecipeServiceImpl.java:96-105 | case folding keeps the length and folds every character |
| RecipeQueries.ContainsIgnoringCaseSpec | sustc-api/src/main/java/io/sustc/service/impl/RecipeServiceImpl.java:96-105 | a text containing the keyword matches it, in any case |
| RecipeQueries.SearchMatches | sustc-api/src/main/java/io/sustc/service/impl/RecipeServiceImpl.java:96-113 | the matches are stored recipes |
| RecipeQueries.SearchKeys | sustc-api/src/main/java/io/sustc/service/impl/RecipeServiceImpl.java:136-148 | every sort option gives a total order ending in recipe id ASC |
| RecipeQueries.RatingDescOrder | sustc-api/src/main/java/io/sustc/service/impl/RecipeServiceImpl.java:137 | rating_desc puts higher ratings first and NULL ratings last |
| RecipeQueries.CaloriesAscOrder | sustc-api/src/main/java/io/sustc/service/impl/RecipeServiceImpl.java:141 | calories_asc puts lower calories first and NULL calories last |
| RecipeQueries.SearchRecipes | sustc-api/src/main/java/io/sustc/service/impl/RecipeServiceImpl.java:86-189 | IllegalArgument for page < 1 or size <= 0, QueryRejected when the 32-bit offset (page-1)*size is negative; otherwise the page of matching recipes in sort order from that offset, each with its full view and linked ingredients, and the total over the same filter |
| RecipeQueries.Views | sustc-api/src/main/java/io/sustc/service/impl/RecipeServiceImpl.java:156-180 | one view per listed id, in the same order, each the recipe with its total time and linked ingredient names |
| RecipeQueries.FillViews | sustc-api/src/main/java/io/sustc/service/impl/RecipeServiceImpl.java:176-179 | the loop over the fetched records produces exactly Views of the page's ids |
| RecipeQueries.PageOfViews | sustc-api/src/main/java/io/sustc/service/impl/RecipeServiceImpl.java:140-187 | the views of a sorted page at the 32-bit offset, with the page number, size and match count, form the search result page |
| RecipeQueries.ComplexityKeys | sustc-api/src/main/java/io/sustc/service/impl/RecipeServiceImpl.java:372 | link count DESC then id ASC: a total order |
| RecipeQueries.ComplexRows | sustc-api/src/main/java/io/sustc/service/impl/RecipeServiceImpl.java:375-380 | each row carries the recipe id, its name and its link count |
| RecipeQueries.Top3Leads | sustc-api/src/main/java/io/sustc/service/impl/RecipeServiceImpl.java:372-373 | every recipe left out of the top 3 has no more links than any shown one, and a larger id on a tie |
| RecipeQueries.Top3 | sustc-api/src/main/java/io/sustc/service/impl/RecipeServiceImpl.java:366-382 | at most 3 recipes with at least one link, by link count desc then id asc, and none left out is more complex |
| RecipeQueries.CalorieIds | sustc-api/src/main/java/io/sustc/service/impl/RecipeServiceImpl.java:313 | recipes with non-null calories |
| RecipeQueries.CalorieKeys | sustc-api/src/main/java/io/sustc/service/impl/RecipeServiceImpl.java:313 | calories ASC then recipe_id ASC: a total order |
| RecipeQueries.NodesOf | sustc-api/src/main/java/io/sustc/service/impl/RecipeServiceImpl.java:315-317 | one (id, calories) node per listed recipe |
| RecipeQueries.CalorieNodes | sustc-api/src/main/java/io/sustc/service/impl/RecipeServiceImpl.java:313-317 | all recipes with calories, each once, sorted by (calories, id) |
| RecipeQueries.AdjacentSuffices | sustc-api/src/main/java/io/sustc/service/impl/RecipeServiceImpl.java:325-349 | in a sorted list some adjacent pair is no farther apart (and no later in tie order) than any pair |
| RecipeQueries.ClosestOverall | sustc-api/src/main/java/io/sustc/service/impl/RecipeServiceImpl.java:325-349 | the best adjacent pair is the best pair overall |
| RecipeQueries.ScanAdjacent | sustc-api/src/main/java/io/sustc/service/impl/RecipeServiceImpl.java:321-349 | the loop keeps the closest adjacent pair seen, breaking ties by smaller min id then smaller max id |
| RecipeQueries.ScanIsGlobal | sustc-api/src/main/java/io/sustc/service/impl/RecipeServiceImpl.java:325-361 | the scanned pair is no farther apart than any two recipes with calories |
| RecipeQueries.Ordered | sustc-api/src/main/java/io/sustc/service/impl/RecipeServiceImpl.java:354-361 | RecipeA < RecipeB with their own calories, and the difference is the gap |
| RecipeQueries.ClosestCaloriePair | sustc-api/src/main/java/io/sustc/service/impl/RecipeServiceImpl.java:311-363 | null with fewer than two recipes with calories; otherwise RecipeA < RecipeB with the least difference over all pairs, ties by min then max id |
| RecipeQueries.ClosestOfNodes | sustc-api/src/main/java/io/sustc/service/impl/RecipeServiceImpl.java:325-361 | the best neighbouring pair of the sorted rows, ordered by id, is a closest pair over all recipes with calories |
| ReviewService.Summarized | sustc-api/src/main/java/io/sustc/service/impl/ReviewServiceImpl.java:223-229 | a recipe with count and aggregate recomputed from its reviews, nothing else changed |
| ReviewService.RefreshRestores | sustc-api/src/main/java/io/sustc/service/impl/ReviewServiceImpl.java:223-229 | recomputing the touched recipe restores the rating invariant after a change to its reviews |
| ReviewService.Refresh | sustc-api/src/main/java/io/sustc/service/impl/ReviewServiceImpl.java:214-239 | IllegalArgument for a missing recipe; otherwise count and rounded mean of its reviews, or no rating when none, and every store constraint kept; the result lies in 0..5.00 |
| ReviewService.ReviewsOfInsert | sustc-api/src/main/java/io/sustc/service/impl/ReviewServiceImpl.java:48-55 | inserting a review adds it to its recipe's reviews, one more |
| ReviewService.ReviewsOfRemove | sustc-api/src/main/java/io/sustc/service/impl/ReviewServiceImpl.java:119-120 | deleting a review removes it from its recipe's reviews, one fewer |
| ReviewService.AddKeeps | sustc-api/src/main/java/io/sustc/service/impl/ReviewServiceImpl.java:48-57 | inserting a review and refreshing keeps every constraint |
| ReviewService.AddReview | sustc-api/src/main/java/io/sustc/service/impl/ReviewServiceImpl.java:34-59 | SecurityError on bad auth; IllegalArgument for a rating outside 1..5 or a missing recipe; otherwise id max+1 with submitted == modified, one more review, aggregate recomputed |
| ReviewService.Edited | sustc-api/src/main/java/io/sustc/service/impl/ReviewServiceImpl.java:88-90 | only rating, text and modified change |
| ReviewService.OwnReviewCheck | sustc-api/src/main/java/io/sustc/service/impl/ReviewServiceImpl.java:73-86 | none exactly for the caller's own review of that recipe; IllegalArgument for a missing review or the caller's review of another recipe; SecurityError exactly for another author's review |
| ReviewService.EditReview | sustc-api/src/main/java/io/sustc/service/impl/ReviewServiceImpl.java:63-92 | rating range checked before lookup; ownership and recipe checks; on success only that review's rating, text and modified change, then the aggregate is recomputed |
| ReviewService.EditKeeps | sustc-api/src/main/java/io/sustc/service/impl/ReviewServiceImpl.java:63-92 | rewriting a review and refreshing its recipe keeps every constraint, the recipe's review set, the rating invariant and the 1..5 range |
| ReviewService.LikesOfOthers | sustc-api/src/main/java/io/sustc/service/impl/ReviewServiceImpl.java:118 | the likes table without the review's likes |
| ReviewService.DeleteReview | sustc-api/src/main/java/io/sustc/service/impl/ReviewServiceImpl.java:96-122 | the same checks as edit; on success the review's likes and then the review go, the rest stays, aggregate recomputed |
| ReviewService.DeleteKeeps | sustc-api/src/main/java/io/sustc/service/impl/ReviewServiceImpl.java:96-122 | deleting a review with its likes and refreshing keeps every constraint, the rating invariant and the range; one review fewer, no like left on it |
| ReviewService.LikeReview | sustc-api/src/main/java/io/sustc/service/impl/ReviewServiceImpl.java:126-145 | IllegalArgument for a missing review, SecurityError for one's own; otherwise the like is added if absent and the count returned, so liking twice gives the same count |
| ReviewService.UnlikeReview | sustc-api/src/main/java/io/sustc/service/impl/ReviewServiceImpl.java:149-162 | IllegalArgument for a missing review; removes the like if present and returns the count |
| ReviewService.LikeUnlikeInverse | sustc-api/src/main/java/io/sustc/service/impl/ReviewServiceImpl.java:141-160 | like then unlike (or unlike then like) restores the likes table |
| ReviewService.ReviewKeys | sustc-api/src/main/java/io/sustc/service/impl/ReviewServiceImpl.java:178-184 | every sort option gives a total order ending in review id ASC |
| ReviewService.LikesDescOrder | sustc-api/src/main/java/io/sustc/service/impl/ReviewServiceImpl.java:179 | likes_desc puts more-liked reviews first |
| ReviewService.ListByRecipe | sustc-api/src/main/java/io/sustc/service/impl/ReviewServiceImpl.java:165-210 | IllegalArgument for page < 1 or size <= 0, QueryRejected when the 32-bit offset (page-1)*size is negative; otherwise the page of the recipe's reviews in sort order from that offset and the total number of its reviews |
| ReviewService.ReviewViewOf | sustc-api/src/main/java/io/sustc/service/impl/ReviewServiceImpl.java:188-199 | one listed row: the stored review's id, recipe, author, rating, text and both dates, the author's name or null, and an empty list of likers |
| ReviewService.ReviewViews | sustc-api/src/main/java/io/sustc/service/impl/ReviewServiceImpl.java:187-200 | one row per fetched id, in fetch order, each the review's fields with its author's name |
| BulkImport.BatchSize | sustc-api/src/main/java/io/sustc/service/impl/DatabaseServiceImpl.java:125 | max(1, 30000/width) is at least 1, so every batch holds a record |
| BulkImport.BatchSizeFits | sustc-api/src/main/java/io/sustc/service/impl/DatabaseServiceImpl.java:125 | a batch is the largest run of records whose parameters fit in 30000, or one record when a single record needs more |
| BulkImport.BatchesCover | sustc-api/src/main/java/io/sustc/service/impl/DatabaseServiceImpl.java:127-131 | batches concatenate to the records, each has 1..batchSize records, none for an empty list |
| BulkImport.BatchesSlice | sustc-api/src/main/java/io/sustc/service/impl/DatabaseServiceImpl.java:128-130 | batch k is records[k*size .. min(k*size+size, total)]: consecutive and disjoint |
| BulkImport.NumberedSpec | sustc-api/src/main/java/io/sustc/service/impl/DatabaseServiceImpl.java:137-142 | the running index binds element k at k+1 and nothing else |
| BulkImport.ArgsLength | sustc-api/src/main/java/io/sustc/service/impl/DatabaseServiceImpl.java:138-142 | with width arguments per record, a batch binds exactly its size times width arguments |
| BulkImport.ArgsAt | sustc-api/src/main/java/io/sustc/service/impl/DatabaseServiceImpl.java:138-142 | with width arguments per record, argument a of record j is the (j*width+a)-th bound |
| BulkImport.StatementLayout | sustc-api/src/main/java/io/sustc/service/impl/DatabaseServiceImpl.java:132-143 | a statement has |batch| tuples and binds exactly indices 1..|batch|*width |
| BulkImport.StatementParam | sustc-api/src/main/java/io/sustc/service/impl/DatabaseServiceImpl.java:132-143 | argument a of record j is bound at index j*width+a+1: records in order |
| BulkImport.Bind | sustc-api/src/main/java/io/sustc/service/impl/DatabaseServiceImpl.java:136-144 | the paramIndex loop binds the batch's arguments in record order from 1 |
| BulkImport.ExecuteBulkInsert | sustc-api/src/main/java/io/sustc/service/impl/DatabaseServiceImpl.java:122-146 | no statement for no records; otherwise one statement per batch, in order |
| BulkImport.DistinctSpec | sustc-api/src/main/java/io/sustc/service/impl/DatabaseServiceImpl.java:56 | distinct() keeps every element and repeats none |
| BulkImport.FanMembers | sustc-api/src/main/java/io/sustc/service/impl/DatabaseServiceImpl.java:51-59 | an (item, owner) pair is produced exactly when the owner's record lists the item |
| BulkImport.BlockNoDup | sustc-api/src/main/java/io/sustc/service/impl/DatabaseServiceImpl.java:55-57 | one record never yields a pair twice |
| BulkImport.FanNoDup | sustc-api/src/main/java/io/sustc/service/impl/DatabaseServiceImpl.java:51-59 | with distinct owner ids no pair is produced twice |
| BulkImport.FollowArgsSpec | sustc-api/src/main/java/io/sustc/service/impl/DatabaseServiceImpl.java:51-59 | (blogger, follower) rows: exactly the listed follows, each once per user |
| BulkImport.LikeArgsSpec | sustc-api/src/main/java/io/sustc/service/impl/DatabaseServiceImpl.java:107-115 | (user, review) rows: exactly the listed likes, each once per review |
| BulkImport.VocabularySpec | sustc-api/src/main/java/io/sustc/service/impl/DatabaseServiceImpl.java:70-73 | the vocabulary is exactly the names some recipe lists |
| BulkImport.LoadIngredientMap | sustc-api/src/main/java/io/sustc/service/impl/DatabaseServiceImpl.java:78-81 | the map holds every loaded name, with the id of its last row |
| BulkImport.LoadVocabulary | sustc-api/src/main/java/io/sustc/service/impl/DatabaseServiceImpl.java:75-81 | inserting the vocabulary once each gives every name an id, the k-th name id k+1, no two names one id |
| BulkImport.LoadedIds | sustc-api/src/main/java/io/sustc/service/impl/DatabaseServiceImpl.java:75-81 | reading back the inserted vocabulary maps exactly the listed names, the k-th to id k+1, no two to one id |
| BulkImport.KnownSpec | sustc-api/src/main/java/io/sustc/service/impl/DatabaseServiceImpl.java:92-93 | the ids kept are those of listed names the map knows |
| BulkImport.KnownNoDup | sustc-api/src/main/java/io/sustc/service/impl/DatabaseServiceImpl.java:88-93 | distinct names with an injective map give distinct ids |
| BulkImport.RecipeLinksSpec | sustc-api/src/main/java/io/sustc/service/impl/DatabaseServiceImpl.java:86-94 | one recipe's rows: exactly its known names, each once |
| BulkImport.HasArgsSpec | sustc-api/src/main/java/io/sustc/service/impl/DatabaseServiceImpl.java:84-96 | (recipe, ingredient) rows: exactly the listed names present in the map; missing ones dropped |
| BulkImport.EveryNameLinked | sustc-api/src/main/java/io/sustc/service/impl/DatabaseServiceImpl.java:70-96 | with the map loaded from the whole vocabulary no listed name is dropped |

## Left out

- SQL text, row mapping, controllers, the exception-to-HTTP mapping and the DDL
  statements are not modelled. The key, foreign-key and gender constraints are
  modelled as `Intact`; the column widths are not, and neither are the failures they
  raise.
- Transactions and concurrency are not modelled: each call is one atomic step, and the
  `MAX(id)+1` race between concurrent calls is out of scope.
- The importer's `parallelStream` is modelled as a sequential list.
- BulkImport.RecipeLinks: orders a recipe's names by first occurrence, which is one
  possible `HashSet` iteration order. The order of the vocabulary list is a parameter.
- Floating point is replaced by integers:
  - calories are integers;
  - review ratings are whole numbers; the aggregate and `minRating` are in hundredths;
  - the follower ratio is compared by cross-multiplication instead of a float
    division, so float-rounding ties are not modelled;
  - the other nutrient columns, yield and servings are not modelled.
- Fractional ratings: `review.rating` is a `REAL` column, so the importer can load a
  fractional rating such as 4.5; the model has only whole ratings.
- RecipeQueries.RatingMatches: the `minRating` filter compares the `REAL` aggregate
  with a `double`, so an aggregate of 4.35, stored as the float just below it, fails
  `>= 4.35`. The model compares exact hundredths, where it passes.
- Column widths (`VARCHAR(255)` for author, dish and ingredient names and passwords,
  `VARCHAR(50)` for the cook and prep times, `VARCHAR(100)` for the category):
  - UserService.Register: a name or password over 255 characters makes the source's
    insert fail, while the model inserts the account;
  - RecipeService.UpdateTimes: a valid duration over 50 characters, such as `PT`
    followed by 48 zeros and `1S`, makes the source's update fail, while the model
    writes it;
  - RecipeService.CreateRecipe: the same holds for a dish name or ingredient name over
    255 characters, a category over 100 characters and a time over 50 characters.
- Clocks are parameters: `Instant.now()` is the `now` argument.
- `calculateAge` (date-pattern parsing against `LocalDate.now()`) is an `Option<int>`
  input to `Register`: `None` when no pattern parses.
- `Durations.Parse` accepts only the `P[nD][T[nH][nM][nS]]` subset with unsigned
  decimal amounts. `java.time.Duration.parse` also accepts signs, fractions and lower
  case, so those strings are rejected here but accepted by the source. The long
  overflow check is modelled by the total: for unsigned amounts a section overflows
  only when the total does.
- `ILIKE` is modelled as a substring test after ASCII case folding. A `%` or `_` inside
  the keyword is treated as a literal character, not as a wildcard, and so is a
  backslash, which PostgreSQL's `LIKE` takes as its default escape character.
- Ingredient names are returned as a set, so the collation order of `ORDER BY
  ingredient_name` is not modelled.
- Review text is a non-null string.
- `ReviewService.ReviewViewOf` leaves `likes` empty, as the source's list mapper does.
- Import records keep only the fields the relation lists use. The counters, ratings
  and other columns copied from records into the user, recipe and review tables are
  not modelled.
- A null record list is not modelled, only the empty one.
- UserService.DeleteAccount: the `return false` branch for an already deleted account
  (UserServiceImpl.java:112-115) is not modelled, because `login` already rejects a
  deleted account.
- UserService.DropFollowers, UserService.DropFollowing: the per-id `UPDATE` loops of
  `deleteAccount` run on a copy of the users table that `RemoveAccountRows` then
  stores. Inside one transaction this gives the same final table; the in-place order of
  the individual writes is not modelled.
- The name, birthday and password of a registration request are strings; a null is
  modelled as the empty string, which `register` rejects in the same way.
- A null `AuthInfo` is not modelled: `login` rejects it just like an empty password.
- Where the code and the documented behaviour differ, the model follows the code:
  - `follow` on a missing or deleted followee returns false with no change rather than
    failing;
  - `updateProfile` writes an age <= 0;
  - a second `deleteAccount` fails at authentication;
  - a name listed twice in `createRecipe` violates the has_ingredient key and rolls
    back everything except the ingredient serial.
- ReviewService.Refresh: states the 0..5.00 bound only when every stored rating is in
  1..5. That is what the review services keep; a rating loaded by the importer is not
  checked.
