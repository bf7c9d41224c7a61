/** The database the services share: the tables users, follows, recipe, ingredient,
    has_ingredient, review and likes_review, with the keys, foreign keys and check
    constraints the schema adds once the data is loaded. */
module StoreModel {
  import opened Wrappers
  import opened Sets

  /** A row of `users`; `following` and `followers` are the stored counters. */
  datatype User = User(
    name: string,
    gender: string,
    age: int,
    following: int,
    followers: int,
    password: string,
    deleted: bool)

  /** A row of `recipe`.  Timestamps are instants in whole units; calories and the
      aggregated rating are nullable numbers, the rating kept in hundredths. */
  datatype Recipe = Recipe(
    author: int,
    name: string,
    published: Option<int>,
    cookTime: Option<string>,
    prepTime: Option<string>,
    description: Option<string>,
    category: Option<string>,
    aggrRating: Option<int>,
    reviewCnt: int,
    calories: Option<int>)

  /** A row of `review`; the rating is a whole number of stars. */
  datatype Review = Review(
    recipe: int,
    author: int,
    rating: int,
    text: string,
    submitted: Option<int>,
    modified: Option<int>)

  /** The credentials every authenticated operation receives. */
  datatype AuthInfo = AuthInfo(authorId: int, password: string)

  /** The values the check constraint on `users.gender` admits. */
  predicate AllowedGender(g: string) {
    g == "Male" || g == "Female" || g == "UNKNOWN"
  }

  // ---------------------------------------------------------------------------
  // Relations stored as pairs: follows as (follower, blogger), likes as
  // (user, review), has_ingredient as (recipe, ingredient id).

  /** How many pairs of `rel` point at `v`: a blogger's followers, a review's likes. */
  function Incoming(rel: set<(int, int)>, v: int): nat {
    |set e | e in rel && e.1 == v|
  }

  /** How many pairs of `rel` start at `v`: the bloggers a user follows, the
      ingredients of a recipe. */
  function Outgoing(rel: set<(int, int)>, v: int): nat {
    |set e | e in rel && e.0 == v|
  }

  lemma IncomingInsert(rel: set<(int, int)>, e: (int, int), v: int)
    requires e !in rel
    ensures Incoming(rel + {e}, v) == Incoming(rel, v) + if e.1 == v then 1 else 0
  {
    var before := set d | d in rel && d.1 == v;
    var after := set d | d in rel + {e} && d.1 == v;
    if e.1 == v {
      assert after == before + {e};
    } else {
      assert after == before;
    }
  }

  lemma IncomingDelete(rel: set<(int, int)>, e: (int, int), v: int)
    requires e in rel
    ensures Incoming(rel - {e}, v) == Incoming(rel, v) - if e.1 == v then 1 else 0
  {
    var before := set d | d in rel && d.1 == v;
    var after := set d | d in rel - {e} && d.1 == v;
    if e.1 == v {
      assert before == after + {e};
    } else {
      assert after == before;
    }
  }

  lemma OutgoingInsert(rel: set<(int, int)>, e: (int, int), v: int)
    requires e !in rel
    ensures Outgoing(rel + {e}, v) == Outgoing(rel, v) + if e.0 == v then 1 else 0
  {
    var before := set d | d in rel && d.0 == v;
    var after := set d | d in rel + {e} && d.0 == v;
    if e.0 == v {
      assert after == before + {e};
    } else {
      assert after == before;
    }
  }

  lemma OutgoingDelete(rel: set<(int, int)>, e: (int, int), v: int)
    requires e in rel
    ensures Outgoing(rel - {e}, v) == Outgoing(rel, v) - if e.0 == v then 1 else 0
  {
    var before := set d | d in rel && d.0 == v;
    var after := set d | d in rel - {e} && d.0 == v;
    if e.0 == v {
      assert before == after + {e};
    } else {
      assert after == before;
    }
  }

  // ---------------------------------------------------------------------------
  // Integrity: the keys and constraints of the schema, and the invariant the
  // services keep that deleted accounts take part in no follow relation.

  ghost predicate FollowsWellFormed(users: map<int, User>, follows: set<(int, int)>) {
    forall e | e in follows ::
      e.0 in users && e.1 in users && !users[e.0].deleted && !users[e.1].deleted
  }

  ghost predicate GendersAllowed(users: map<int, User>) {
    forall u | u in users :: AllowedGender(users[u].gender)
  }

  ghost predicate RecipesWellFormed(users: map<int, User>, recipes: map<int, Recipe>) {
    forall r | r in recipes :: recipes[r].author in users
  }

  /** Ingredient names are unique, ids are a primary key drawn from the serial. */
  ghost predicate IngredientsWellFormed(ingredients: map<string, int>, serial: int) {
    && serial >= 0
    && (forall n | n in ingredients :: 1 <= ingredients[n] <= serial)
    && (forall n, m | n in ingredients && m in ingredients && n != m :: ingredients[n] != ingredients[m])
  }

  ghost predicate HasIngredientWellFormed(recipes: map<int, Recipe>, ingredients: map<string, int>, has: set<(int, int)>) {
    forall e | e in has :: e.0 in recipes && e.1 in ingredients.Values
  }

  ghost predicate ReviewsWellFormed(users: map<int, User>, recipes: map<int, Recipe>, reviews: map<int, Review>) {
    forall v | v in reviews :: reviews[v].recipe in recipes && reviews[v].author in users
  }

  ghost predicate LikesWellFormed(users: map<int, User>, reviews: map<int, Review>, likes: set<(int, int)>) {
    forall e | e in likes :: e.0 in users && e.1 in reviews
  }

  /** The stored follow counters agree with the follows relation.  The services keep
      this; the import copies the counters from its input records. */
  ghost predicate CountersConsistent(users: map<int, User>, follows: set<(int, int)>) {
    forall u | u in users ::
      users[u].followers == Incoming(follows, u) && users[u].following == Outgoing(follows, u)
  }

  // ---------------------------------------------------------------------------
  // Aggregated ratings.

  /** The ids of the reviews of recipe `rid`. */
  function ReviewsOf(reviews: map<int, Review>, rid: int): (ids: set<int>)
    ensures ids <= reviews.Keys
    ensures forall v | v in ids :: reviews[v].recipe == rid
  {
    set v | v in reviews && reviews[v].recipe == rid
  }

  /** The sum of the ratings of the reviews `ids`. */
  function SumRatings(reviews: map<int, Review>, ids: set<int>): int
    requires ids <= reviews.Keys
    decreases ids
  {
    if ids == {} then 0
    else
      var m := Min(ids);
      reviews[m].rating + SumRatings(reviews, ids - {m})
  }

  /** `ROUND(sum / n, 2)` in hundredths, halves rounded away from zero as the
      numeric ROUND of PostgreSQL does. */
  function RoundAverage(sum: int, n: int): int
    requires n > 0
  {
    if sum >= 0 then (200 * sum + n) / (2 * n) else -((200 * -sum + n) / (2 * n))
  }

  /** The value `refreshRecipeAggregatedRating` stores: the rounded average rating of
      the recipe's reviews, or null when it has none. */
  function Aggregate(reviews: map<int, Review>, rid: int): Option<int> {
    var ids := ReviewsOf(reviews, rid);
    if ids == {} then None else Some(RoundAverage(SumRatings(reviews, ids), |ids|))
  }

  /** Every recipe's stored count and aggregate match its reviews. */
  ghost predicate RatingsConsistent(recipes: map<int, Recipe>, reviews: map<int, Review>) {
    forall r | r in recipes ::
      recipes[r].reviewCnt == |ReviewsOf(reviews, r)| && recipes[r].aggrRating == Aggregate(reviews, r)
  }

  lemma DivFloor(a: int, b: int)
    requires a >= 0 && b > 0
    ensures a / b >= 0 && b * (a / b) <= a < b * (a / b) + b
  {
  }

  /** Rounding a non-negative average: `r` is within half a hundredth of `m / n`,
      where `m` is a hundred times the sum, a tie going up. */
  lemma HalfUp(m: int, n: int)
    requires m >= 0 && n > 0
    ensures var r := (2 * m + n) / (2 * n); r >= 0 && 2 * n * r - n <= 2 * m < 2 * n * r + n
  {
    var r := (2 * m + n) / (2 * n);
    DivFloor(2 * m + n, 2 * n);
    assert (2 * n) * r == 2 * n * r;
  }

  /** The rounded value is within half a hundredth of the exact average `sum / n`,
      a tie going away from zero. */
  lemma RoundAverageNearest(sum: int, n: int)
    requires n > 0
    ensures var r := RoundAverage(sum, n);
      && (sum >= 0 ==> r >= 0 && 2 * n * r - n <= 200 * sum < 2 * n * r + n)
      && (sum < 0 ==> r <= 0 && 2 * n * -r - n <= 200 * -sum < 2 * n * -r + n)
  {
    if sum >= 0 {
      HalfUp(100 * sum, n);
    } else {
      HalfUp(100 * -sum, n);
      var q := (2 * (100 * -sum) + n) / (2 * n);
      assert RoundAverage(sum, n) == -q;
      assert 2 * n * -(-q) == 2 * n * q;
    }
  }

  lemma {:induction false} SumRatingsRemove(reviews: map<int, Review>, ids: set<int>, x: int)
    requires ids <= reviews.Keys && x in ids
    ensures SumRatings(reviews, ids) == reviews[x].rating + SumRatings(reviews, ids - {x})
    decreases ids
  {
    var m := Min(ids);
    if x != m {
      SumRatingsRemove(reviews, ids - {m}, x);
      var rest := ids - {x};
      assert m in rest;
      assert Min(rest) == m;
      assert rest - {m} == ids - {m} - {x};
    }
  }

  /** The sum depends only on the ratings of the summed reviews. */
  lemma {:induction false} SumRatingsFrame(r1: map<int, Review>, r2: map<int, Review>, ids: set<int>)
    requires ids <= r1.Keys && ids <= r2.Keys
    requires forall v | v in ids :: r1[v].rating == r2[v].rating
    ensures SumRatings(r1, ids) == SumRatings(r2, ids)
    decreases ids
  {
    if ids != {} {
      SumRatingsFrame(r1, r2, ids - {Min(ids)});
    }
  }

  lemma {:induction false} SumRatingsBounds(reviews: map<int, Review>, ids: set<int>)
    requires ids <= reviews.Keys
    requires forall v | v in ids :: 1 <= reviews[v].rating <= 5
    ensures |ids| <= SumRatings(reviews, ids) <= 5 * |ids|
    decreases ids
  {
    if ids != {} {
      SumRatingsBounds(reviews, ids - {Min(ids)});
    }
  }

  lemma PositiveFactor(a: int, n: int)
    requires n > 0 && a * n > 0
    ensures a > 0
  {
  }

  lemma RoundAverageRange(s: int, n: int)
    requires n > 0 && n <= s <= 5 * n
    ensures 100 <= RoundAverage(s, n) <= 500
  {
    RoundAverageNearest(s, n);
    var r := RoundAverage(s, n);
    RoundedAtLeast(n, r);
    RoundedAtMost(n, r);
  }

  lemma RoundedAtLeast(n: int, r: int)
    requires n > 0 && 2 * n * r + n > 200 * n
    ensures r >= 100
  {
    assert (2 * r + 1 - 200) * n == 2 * n * r + n - 200 * n;
    PositiveFactor(2 * r + 1 - 200, n);
  }

  lemma RoundedAtMost(n: int, r: int)
    requires n > 0 && 2 * n * r - n <= 1000 * n
    ensures r <= 500
  {
    assert (1001 - 2 * r) * n == 1000 * n + n - 2 * n * r;
    PositiveFactor(1001 - 2 * r, n);
  }

  /** With ratings from 1 to 5 the aggregate lies between 1.00 and 5.00. */
  lemma AggregateRange(reviews: map<int, Review>, rid: int)
    requires forall v | v in ReviewsOf(reviews, rid) :: 1 <= reviews[v].rating <= 5
    ensures Aggregate(reviews, rid).Some? ==> 100 <= Aggregate(reviews, rid).value <= 500
  {
    var ids := ReviewsOf(reviews, rid);
    if ids != {} {
      SumRatingsBounds(reviews, ids);
      RoundAverageRange(SumRatings(reviews, ids), |ids|);
    }
  }

  /** The aggregate of a recipe changes only when one of its own reviews changes. */
  lemma AggregateFrame(r1: map<int, Review>, r2: map<int, Review>, rid: int)
    requires ReviewsOf(r1, rid) == ReviewsOf(r2, rid)
    requires forall v | v in ReviewsOf(r1, rid) :: r1[v].rating == r2[v].rating
    ensures Aggregate(r1, rid) == Aggregate(r2, rid)
  {
    SumRatingsFrame(r1, r2, ReviewsOf(r1, rid));
  }

  // ---------------------------------------------------------------------------
  // The database as a whole.

  /** The content of every table at one moment. */
  datatype Db = Db(
    users: map<int, User>,
    follows: set<(int, int)>,
    recipes: map<int, Recipe>,
    ingredients: map<string, int>,
    ingredientSerial: int,
    hasIngredient: set<(int, int)>,
    reviews: map<int, Review>,
    likes: set<(int, int)>)

  /** The keys, foreign keys and check constraints of the schema hold. */
  ghost predicate Intact(d: Db) {
    && FollowsWellFormed(d.users, d.follows)
    && GendersAllowed(d.users)
    && RecipesWellFormed(d.users, d.recipes)
    && IngredientsWellFormed(d.ingredients, d.ingredientSerial)
    && HasIngredientWellFormed(d.recipes, d.ingredients, d.hasIngredient)
    && ReviewsWellFormed(d.users, d.recipes, d.reviews)
    && LikesWellFormed(d.users, d.reviews, d.likes)
  }

  /** The stored database; every service operation works on one. */
  class Store {
    var users: map<int, User>
    var follows: set<(int, int)>
    var recipes: map<int, Recipe>
    var ingredients: map<string, int>
    var ingredientSerial: int
    var hasIngredient: set<(int, int)>
    var reviews: map<int, Review>
    var likes: set<(int, int)>

    function Snapshot(): Db
      reads this
    {
      Db(users, follows, recipes, ingredients, ingredientSerial, hasIngredient, reviews, likes)
    }

    ghost predicate Valid()
      reads this
    {
      Intact(Snapshot())
    }

    /** The empty tables `createBasicTables` sets up. */
    constructor ()
      ensures Valid()
      ensures Snapshot() == Db(map[], {}, map[], map[], 0, {}, map[], {})
    {
      users := map[];
      follows := {};
      recipes := map[];
      ingredients := map[];
      ingredientSerial := 0;
      hasIngredient := {};
      reviews := map[];
      likes := {};
    }
  }
}
