/** Reviews: adding, editing and deleting them (each followed by a refresh of the
    recipe's rating summary), likes on reviews, and the paged list of a recipe's
    reviews. */
module ReviewService {
  import opened Wrappers
  import opened Sets
  import opened Ordering
  import opened StoreModel
  import opened UserService

  // ---------------------------------------------------------------------------
  // Rating summary

  /** What `refreshRecipeAggregatedRating` returns: the aggregate read with
      `getFloat` (null becomes 0) and the review count. */
  datatype RatingSummary = RatingSummary(aggregatedRating: int, reviewCount: int)

  /** The recipe row once its summary is recomputed from the reviews. */
  function Summarized(rec: Recipe, reviews: map<int, Review>, rid: int): (r: Recipe)
    ensures r.reviewCnt == |ReviewsOf(reviews, rid)| && r.aggrRating == Aggregate(reviews, rid)
    ensures r.(aggrRating := rec.aggrRating, reviewCnt := rec.reviewCnt) == rec
  {
    rec.(aggrRating := Aggregate(reviews, rid), reviewCnt := |ReviewsOf(reviews, rid)|)
  }

  /** Every review has a rating from 1 to 5, as the service admits. */
  ghost predicate RatingsInRange(reviews: map<int, Review>) {
    forall v | v in reviews :: 1 <= reviews[v].rating <= 5
  }

  /** The reviews of recipes other than `rid` are the same in both tables. */
  ghost predicate OthersUnchanged(r1: map<int, Review>, r2: map<int, Review>, rid: int) {
    && (forall v | v in r1 && r1[v].recipe != rid :: v in r2 && r2[v] == r1[v])
    && (forall v | v in r2 && r2[v].recipe != rid :: v in r1 && r1[v] == r2[v])
  }

  /** When only the reviews of `rid` change, recomputing the summary of `rid` alone
      restores every recipe's summary. */
  lemma RefreshRestores(recipes: map<int, Recipe>, r1: map<int, Review>, r2: map<int, Review>, rid: int)
    requires RatingsConsistent(recipes, r1) && OthersUnchanged(r1, r2, rid) && rid in recipes
    ensures RatingsConsistent(recipes[rid := Summarized(recipes[rid], r2, rid)], r2)
  {
    forall x | x in recipes && x != rid
      ensures recipes[x].reviewCnt == |ReviewsOf(r2, x)| && recipes[x].aggrRating == Aggregate(r2, x)
    {
      forall v ensures v in ReviewsOf(r2, x) <==> v in ReviewsOf(r1, x) {
        if v in r2 && r2[v].recipe == x {
          assert v in r1;
        }
      }
      assert ReviewsOf(r2, x) == ReviewsOf(r1, x);
      AggregateFrame(r1, r2, x);
    }
  }

  /** `refreshRecipeAggregatedRating`: the recipe's aggregate becomes the rounded
      average of its ratings (null without reviews) and its count the number of its
      reviews. */
  method Refresh(st: Store, rid: int) returns (r: Result<RatingSummary>)
    requires st.Valid()
    modifies st
    ensures st.Valid()
    ensures rid !in old(st.recipes) ==> r == Err(IllegalArgument) && st.Snapshot() == old(st.Snapshot())
    ensures rid in old(st.recipes) ==>
      && st.Snapshot() == old(st.Snapshot()).(recipes := old(st.recipes)[rid := Summarized(old(st.recipes)[rid], st.reviews, rid)])
      && r == Ok(RatingSummary(Aggregate(st.reviews, rid).GetOr(0), |ReviewsOf(st.reviews, rid)|))
    ensures RatingsInRange(st.reviews) && r.Ok? ==> 0 <= r.value.aggregatedRating <= 500
  {
    if rid !in st.recipes {
      return Err(IllegalArgument);
    }
    SummaryIntact(st.Snapshot(), rid, Summarized(st.recipes[rid], st.reviews, rid));
    st.recipes := st.recipes[rid := Summarized(st.recipes[rid], st.reviews, rid)];
    var aggr := st.recipes[rid].aggrRating;
    r := Ok(RatingSummary(aggr.GetOr(0), st.recipes[rid].reviewCnt));
    if RatingsInRange(st.reviews) {
      AggregateRange(st.reviews, rid);
    }
  }

  // ---------------------------------------------------------------------------
  // Adding, editing, deleting

  lemma ReviewsOfInsert(reviews: map<int, Review>, id: int, v: Review)
    requires id !in reviews
    ensures ReviewsOf(reviews[id := v], v.recipe) == ReviewsOf(reviews, v.recipe) + {id}
    ensures |ReviewsOf(reviews[id := v], v.recipe)| == |ReviewsOf(reviews, v.recipe)| + 1
  {
    assert ReviewsOf(reviews[id := v], v.recipe) == ReviewsOf(reviews, v.recipe) + {id};
  }

  lemma ReviewsOfRemove(reviews: map<int, Review>, id: int)
    requires id in reviews
    ensures ReviewsOf(reviews - {id}, reviews[id].recipe) == ReviewsOf(reviews, reviews[id].recipe) - {id}
    ensures |ReviewsOf(reviews - {id}, reviews[id].recipe)| == |ReviewsOf(reviews, reviews[id].recipe)| - 1
  {
    assert ReviewsOf(reviews - {id}, reviews[id].recipe) == ReviewsOf(reviews, reviews[id].recipe) - {id};
  }

  /** Rewriting the summary columns of a stored recipe keeps the constraints. */
  lemma SummaryIntact(d: Db, rid: int, rec: Recipe)
    requires Intact(d) && rid in d.recipes && rec.author == d.recipes[rid].author
    ensures Intact(d.(recipes := d.recipes[rid := rec]))
  {
  }

  /** Inserting a review of an existing recipe by an existing user, then refreshing
      that recipe, keeps the constraints, the rating summaries and the rating range. */
  lemma AddKeeps(d: Db, id: int, v: Review)
    requires Intact(d) && id !in d.reviews && v.recipe in d.recipes && v.author in d.users
    ensures var reviews := d.reviews[id := v];
      var e := d.(reviews := reviews, recipes := d.recipes[v.recipe := Summarized(d.recipes[v.recipe], reviews, v.recipe)]);
      && Intact(d.(reviews := reviews)) && Intact(e)
      && |ReviewsOf(reviews, v.recipe)| == |ReviewsOf(d.reviews, v.recipe)| + 1
      && (RatingsConsistent(d.recipes, d.reviews) ==> RatingsConsistent(e.recipes, e.reviews))
      && (RatingsInRange(d.reviews) && 1 <= v.rating <= 5 ==> RatingsInRange(reviews))
  {
    var reviews := d.reviews[id := v];
    ReviewsOfInsert(d.reviews, id, v);
    assert Intact(d.(reviews := reviews));
    SummaryIntact(d.(reviews := reviews), v.recipe, Summarized(d.recipes[v.recipe], reviews, v.recipe));
    if RatingsConsistent(d.recipes, d.reviews) {
      RefreshRestores(d.recipes, d.reviews, reviews, v.recipe);
    }
  }

  /** `addReview`: a rating from 1 to 5 on an existing recipe is stored under the
      next review id, submitted and modified now, and the recipe's summary is
      recomputed, counting one review more. */
  method AddReview(st: Store, auth: AuthInfo, rid: int, rating: int, text: string, now: int) returns (r: Result<int>)
    requires st.Valid()
    modifies st
    ensures st.Valid()
    ensures var me := Login(old(st.users), auth);
      if me == -1 then
        r == Err(SecurityError) && st.Snapshot() == old(st.Snapshot())
      else if rating < 1 || rating > 5 || rid !in old(st.recipes) then
        r == Err(IllegalArgument) && st.Snapshot() == old(st.Snapshot())
      else
        var id := NextId(old(st.reviews).Keys);
        var reviews := old(st.reviews)[id := Review(rid, me, rating, text, Some(now), Some(now))];
        && r == Ok(id)
        && st.Snapshot() == old(st.Snapshot()).(reviews := reviews,
                                                recipes := old(st.recipes)[rid := Summarized(old(st.recipes)[rid], reviews, rid)])
    ensures r.Ok? ==> |ReviewsOf(st.reviews, rid)| == |ReviewsOf(old(st.reviews), rid)| + 1
    ensures r.Ok? ==> st.recipes[rid].reviewCnt == |ReviewsOf(st.reviews, rid)|
    ensures old(RatingsConsistent(st.recipes, st.reviews)) ==> RatingsConsistent(st.recipes, st.reviews)
    ensures old(RatingsInRange(st.reviews)) ==> RatingsInRange(st.reviews)
  {
    var me := Login(st.users, auth);
    if me == -1 {
      return Err(SecurityError);
    }
    if rating < 1 || rating > 5 {
      return Err(IllegalArgument);
    }
    if rid !in st.recipes {
      return Err(IllegalArgument);
    }
    var id := NextId(st.reviews.Keys);
    var v := Review(rid, me, rating, text, Some(now), Some(now));
    AddKeeps(st.Snapshot(), id, v);
    st.reviews := st.reviews[id := v];
    var _ := Refresh(st, rid);
    r := Ok(id);
  }

  /** The review row after `editReview`. */
  function Edited(v: Review, rating: int, text: string, now: int): (e: Review)
    ensures e.rating == rating && e.text == text && e.modified == Some(now)
    ensures e.(rating := v.rating, text := v.text, modified := v.modified) == v
  {
    v.(rating := rating, text := text, modified := Some(now))
  }

  /** The checks `editReview` and `deleteReview` make once the caller is logged in:
      the review exists, the caller wrote it, and it belongs to the named recipe. */
  function OwnReviewCheck(reviews: map<int, Review>, me: int, rid: int, vid: int): (r: Option<Error>)
    ensures r.None? <==> vid in reviews && reviews[vid].author == me && reviews[vid].recipe == rid
    ensures r == Some(SecurityError) <==> vid in reviews && reviews[vid].author != me
    ensures vid !in reviews ==> r == Some(IllegalArgument)
    ensures vid in reviews && reviews[vid].author == me && reviews[vid].recipe != rid ==> r == Some(IllegalArgument)
  {
    if vid !in reviews then Some(IllegalArgument)
    else if reviews[vid].author != me then Some(SecurityError)
    else if reviews[vid].recipe != rid then Some(IllegalArgument)
    else None
  }

  /** Rewriting a review in place, then refreshing its recipe, keeps the
      constraints, the recipe's set of reviews, the rating summaries and the rating
      range. */
  lemma EditKeeps(d: Db, vid: int, v: Review)
    requires Intact(d) && vid in d.reviews
    requires v.recipe == d.reviews[vid].recipe && v.author == d.reviews[vid].author
    ensures var reviews := d.reviews[vid := v];
      var e := d.(reviews := reviews, recipes := d.recipes[v.recipe := Summarized(d.recipes[v.recipe], reviews, v.recipe)]);
      && Intact(d.(reviews := reviews)) && Intact(e)
      && ReviewsOf(reviews, v.recipe) == ReviewsOf(d.reviews, v.recipe)
      && (RatingsConsistent(d.recipes, d.reviews) ==> RatingsConsistent(e.recipes, e.reviews))
      && (RatingsInRange(d.reviews) && 1 <= v.rating <= 5 ==> RatingsInRange(reviews))
  {
    var reviews := d.reviews[vid := v];
    assert ReviewsOf(reviews, v.recipe) == ReviewsOf(d.reviews, v.recipe);
    if RatingsConsistent(d.recipes, d.reviews) {
      RefreshRestores(d.recipes, d.reviews, reviews, v.recipe);
    }
  }

  /** `editReview`: the author changes the rating and text of a review of the named
      recipe, and the recipe's summary is recomputed. */
  method EditReview(st: Store, auth: AuthInfo, rid: int, vid: int, rating: int, text: string, now: int) returns (r: Result<()>)
    requires st.Valid()
    modifies st
    ensures st.Valid()
    ensures var me := Login(old(st.users), auth);
      if me == -1 then
        r == Err(SecurityError) && st.Snapshot() == old(st.Snapshot())
      else if rating < 1 || rating > 5 then
        r == Err(IllegalArgument) && st.Snapshot() == old(st.Snapshot())
      else if OwnReviewCheck(old(st.reviews), me, rid, vid).Some? then
        r == Err(OwnReviewCheck(old(st.reviews), me, rid, vid).value) && st.Snapshot() == old(st.Snapshot())
      else
        var reviews := old(st.reviews)[vid := Edited(old(st.reviews)[vid], rating, text, now)];
        && r == Ok(())
        && st.Snapshot() == old(st.Snapshot()).(reviews := reviews,
                                                recipes := old(st.recipes)[rid := Summarized(old(st.recipes)[rid], reviews, rid)])
    ensures r.Ok? ==> ReviewsOf(st.reviews, rid) == ReviewsOf(old(st.reviews), rid)
    ensures old(RatingsConsistent(st.recipes, st.reviews)) ==> RatingsConsistent(st.recipes, st.reviews)
    ensures old(RatingsInRange(st.reviews)) ==> RatingsInRange(st.reviews)
  {
    var me := Login(st.users, auth);
    if me == -1 {
      return Err(SecurityError);
    }
    if rating < 1 || rating > 5 {
      return Err(IllegalArgument);
    }
    var check := OwnReviewCheck(st.reviews, me, rid, vid);
    if check.Some? {
      return Err(check.value);
    }
    EditKeeps(st.Snapshot(), vid, Edited(st.reviews[vid], rating, text, now));
    st.reviews := st.reviews[vid := Edited(st.reviews[vid], rating, text, now)];
    var _ := Refresh(st, rid);
    r := Ok(());
  }

  /** The likes without those of review `vid`. */
  function LikesOfOthers(likes: set<(int, int)>, vid: int): (l: set<(int, int)>)
    ensures l <= likes
    ensures forall e | e in likes :: e in l <==> e.1 != vid
  {
    set e | e in likes && e.1 != vid
  }

  /** Deleting a review with its likes, then refreshing its recipe, keeps the
      constraints, the rating summaries and the rating range, and leaves the recipe
      one review fewer and the review no like. */
  lemma DeleteKeeps(d: Db, vid: int)
    requires Intact(d) && vid in d.reviews
    ensures var rid := d.reviews[vid].recipe;
      var reviews := d.reviews - {vid};
      var e := d.(likes := LikesOfOthers(d.likes, vid), reviews := reviews,
                  recipes := d.recipes[rid := Summarized(d.recipes[rid], reviews, rid)]);
      && Intact(d.(likes := LikesOfOthers(d.likes, vid), reviews := reviews)) && Intact(e)
      && |ReviewsOf(reviews, rid)| == |ReviewsOf(d.reviews, rid)| - 1
      && Incoming(e.likes, vid) == 0
      && (RatingsConsistent(d.recipes, d.reviews) ==> RatingsConsistent(e.recipes, e.reviews))
      && (RatingsInRange(d.reviews) ==> RatingsInRange(reviews))
  {
    var rid := d.reviews[vid].recipe;
    var reviews := d.reviews - {vid};
    var likes := LikesOfOthers(d.likes, vid);
    ReviewsOfRemove(d.reviews, vid);
    assert (set e | e in likes && e.1 == vid) == {};
    if RatingsConsistent(d.recipes, d.reviews) {
      RefreshRestores(d.recipes, d.reviews, reviews, rid);
    }
  }

  /** `deleteReview`: the author deletes a review of the named recipe with its likes,
      and the recipe's summary is recomputed, counting one review fewer. */
  method DeleteReview(st: Store, auth: AuthInfo, rid: int, vid: int) returns (r: Result<()>)
    requires st.Valid()
    modifies st
    ensures st.Valid()
    ensures var me := Login(old(st.users), auth);
      if me == -1 then
        r == Err(SecurityError) && st.Snapshot() == old(st.Snapshot())
      else if OwnReviewCheck(old(st.reviews), me, rid, vid).Some? then
        r == Err(OwnReviewCheck(old(st.reviews), me, rid, vid).value) && st.Snapshot() == old(st.Snapshot())
      else
        var reviews := old(st.reviews) - {vid};
        && r == Ok(())
        && st.Snapshot() == old(st.Snapshot()).(likes := LikesOfOthers(old(st.likes), vid), reviews := reviews,
                                                recipes := old(st.recipes)[rid := Summarized(old(st.recipes)[rid], reviews, rid)])
    ensures r.Ok? ==> |ReviewsOf(st.reviews, rid)| == |ReviewsOf(old(st.reviews), rid)| - 1
    ensures r.Ok? ==> Incoming(st.likes, vid) == 0
    ensures old(RatingsConsistent(st.recipes, st.reviews)) ==> RatingsConsistent(st.recipes, st.reviews)
    ensures old(RatingsInRange(st.reviews)) ==> RatingsInRange(st.reviews)
  {
    var me := Login(st.users, auth);
    if me == -1 {
      return Err(SecurityError);
    }
    var check := OwnReviewCheck(st.reviews, me, rid, vid);
    if check.Some? {
      return Err(check.value);
    }
    DeleteKeeps(st.Snapshot(), vid);
    st.likes := LikesOfOthers(st.likes, vid);
    st.reviews := st.reviews - {vid};
    var _ := Refresh(st, rid);
    r := Ok(());
  }

  // ---------------------------------------------------------------------------
  // Likes

  /** `likeReview`: anyone but the review's author may like it; liking twice is
      ignored.  Returns the review's like count. */
  method LikeReview(st: Store, auth: AuthInfo, vid: int) returns (r: Result<int>)
    requires st.Valid()
    modifies st
    ensures st.Valid()
    ensures var me := Login(old(st.users), auth);
      if me == -1 then
        r == Err(SecurityError) && st.Snapshot() == old(st.Snapshot())
      else if vid !in old(st.reviews) then
        r == Err(IllegalArgument) && st.Snapshot() == old(st.Snapshot())
      else if old(st.reviews)[vid].author == me then
        r == Err(SecurityError) && st.Snapshot() == old(st.Snapshot())
      else
        && st.Snapshot() == old(st.Snapshot()).(likes := old(st.likes) + {(me, vid)})
        && r == Ok(Incoming(st.likes, vid))
    ensures r.Ok? ==>
      r.value == Incoming(old(st.likes), vid) + (if (auth.authorId, vid) in old(st.likes) then 0 else 1)
  {
    var me := Login(st.users, auth);
    if me == -1 {
      return Err(SecurityError);
    }
    if vid !in st.reviews {
      return Err(IllegalArgument);
    }
    if st.reviews[vid].author == me {
      return Err(SecurityError);
    }
    if (me, vid) !in st.likes {
      IncomingInsert(st.likes, (me, vid), vid);
    } else {
      assert st.likes + {(me, vid)} == st.likes;
    }
    st.likes := st.likes + {(me, vid)};
    r := Ok(Incoming(st.likes, vid));
  }

  /** `unlikeReview`: withdraws the caller's like, if any, and returns the review's
      like count. */
  method UnlikeReview(st: Store, auth: AuthInfo, vid: int) returns (r: Result<int>)
    requires st.Valid()
    modifies st
    ensures st.Valid()
    ensures var me := Login(old(st.users), auth);
      if me == -1 then
        r == Err(SecurityError) && st.Snapshot() == old(st.Snapshot())
      else if vid !in old(st.reviews) then
        r == Err(IllegalArgument) && st.Snapshot() == old(st.Snapshot())
      else
        && st.Snapshot() == old(st.Snapshot()).(likes := old(st.likes) - {(me, vid)})
        && r == Ok(Incoming(st.likes, vid))
    ensures r.Ok? ==>
      r.value == Incoming(old(st.likes), vid) - (if (auth.authorId, vid) in old(st.likes) then 1 else 0)
  {
    var me := Login(st.users, auth);
    if me == -1 {
      return Err(SecurityError);
    }
    if vid !in st.reviews {
      return Err(IllegalArgument);
    }
    if (me, vid) in st.likes {
      IncomingDelete(st.likes, (me, vid), vid);
    } else {
      assert st.likes - {(me, vid)} == st.likes;
    }
    st.likes := st.likes - {(me, vid)};
    r := Ok(Incoming(st.likes, vid));
  }

  /** Unliking undoes a like that was not there before, and liking restores a like
      that was withdrawn. */
  lemma LikeUnlikeInverse(likes: set<(int, int)>, me: int, vid: int)
    ensures (me, vid) !in likes ==> (likes + {(me, vid)}) - {(me, vid)} == likes
    ensures (me, vid) in likes ==> (likes - {(me, vid)}) + {(me, vid)} == likes
  {
  }

  // ---------------------------------------------------------------------------
  // Listing

  /** A review as `listByRecipe` returns it; the list of likers is always empty. */
  datatype ReviewView = ReviewView(
    reviewId: int,
    recipeId: int,
    authorId: int,
    authorName: Option<string>,
    rating: int,
    text: string,
    submitted: Option<int>,
    modified: Option<int>,
    likes: seq<int>)

  /** One row of the list mapper: the stored review, its author's name through the
      left join (null for a missing author) and no likers. */
  function ReviewViewOf(users: map<int, User>, reviews: map<int, Review>, vid: int): (w: ReviewView)
    requires vid in reviews
    ensures w.reviewId == vid && w.recipeId == reviews[vid].recipe && w.authorId == reviews[vid].author
    ensures w.authorName == (if reviews[vid].author in users then Some(users[reviews[vid].author].name) else None)
    ensures w.rating == reviews[vid].rating && w.text == reviews[vid].text
    ensures w.submitted == reviews[vid].submitted && w.modified == reviews[vid].modified
    ensures w.likes == []
  {
    var v := reviews[vid];
    ReviewView(vid, v.recipe, v.author, if v.author in users then Some(users[v.author].name) else None,
               v.rating, v.text, v.submitted, v.modified, [])
  }

  /** The rows the list mapper builds for the fetched review ids, in fetch order. */
  function ReviewViews(users: map<int, User>, reviews: map<int, Review>, ids: seq<int>): (vs: seq<ReviewView>)
    requires forall i | 0 <= i < |ids| :: ids[i] in reviews
    ensures |vs| == |ids|
    ensures forall i | 0 <= i < |ids| :: vs[i].reviewId == ids[i] && vs[i] == ReviewViewOf(users, reviews, ids[i])
  {
    seq(|ids|, i requires 0 <= i < |ids| => ReviewViewOf(users, reviews, ids[i]))
  }

  /** The ORDER BY the `sort` argument selects: `likes_desc` by like count, most
      first; `date_desc` by modification time, latest first with nulls ahead as
      PostgreSQL sorts a descending column; anything else by id. */
  function ReviewKeys(reviews: map<int, Review>, likes: set<(int, int)>, s: set<int>, sort: Option<string>): (keys: map<int, Key>)
    requires s <= reviews.Keys
    ensures IdTieBreak(s, keys)
  {
    map v | v in s ::
      if sort == Some("likes_desc") then Key(0, -(Incoming(likes, v) as int), v)
      else if sort == Some("date_desc") then
        (if reviews[v].modified.None? then Key(0, 0, v) else Key(1, -reviews[v].modified.value, v))
      else Key(0, 0, v)
  }

  /** Under `likes_desc` a review with more likes is listed first. */
  lemma LikesDescOrder(reviews: map<int, Review>, likes: set<(int, int)>, s: set<int>, x: int, y: int)
    requires s <= reviews.Keys && x in s && y in s
    requires Incoming(likes, x) > Incoming(likes, y)
    ensures var keys := ReviewKeys(reviews, likes, s, Some("likes_desc")); KeyLess(keys[x], keys[y])
  {
  }

  /** `listByRecipe`: one page of the recipe's reviews in the requested order, and
      their number; an unknown recipe yields an empty page.  A page and size whose
      32-bit offset `(page - 1) * size` is negative make the database refuse the
      query. */
  function ListByRecipe(users: map<int, User>, reviews: map<int, Review>, likes: set<(int, int)>, rid: int,
                        page: int, size: int, sort: Option<string>): (r: Result<Page<ReviewView>>)
    ensures r.Err? <==> page < 1 || size <= 0 || Offset(page, size) < 0
    ensures r.Err? ==> r.error == if page < 1 || size <= 0 then IllegalArgument else QueryRejected
    ensures r.Ok? ==>
      var s := ReviewsOf(reviews, rid);
      var keys := ReviewKeys(reviews, likes, s, sort);
      var p := r.value;
      var lo := Offset(page, size);
      && p.page == page && p.size == size && p.total == |s|
      && |p.items| == (if lo >= |s| then 0 else Smaller(size, |s| - lo))
      && (forall i | 0 <= i < |p.items| ::
            && p.items[i].reviewId in s && Rank(s, keys, p.items[i].reviewId) == lo + i
            && p.items[i] == ReviewViewOf(users, reviews, p.items[i].reviewId))
      && (forall i, j | 0 <= i < j < |p.items| :: KeyLess(keys[p.items[i].reviewId], keys[p.items[j].reviewId]))
  {
    if page < 1 || size <= 0 then Err(IllegalArgument)
    else
      var lo := Offset(page, size);
      if lo < 0 then Err(QueryRejected)
      else
        var s := ReviewsOf(reviews, rid);
        var ids := SortedPage(s, ReviewKeys(reviews, likes, s, sort), lo, size);
        Ok(Page(ReviewViews(users, reviews, ids), page, size, |s|))
  }
}
