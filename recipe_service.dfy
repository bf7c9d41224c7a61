/** The writing half of the recipe service: creating a recipe with its ingredients,
    deleting a recipe with everything hanging off it, and changing its times. */
module RecipeService {
  import opened Wrappers
  import opened Sets
  import opened StoreModel
  import opened Durations
  import opened IngredientLinking
  import opened UserService
  import opened RecipeQueries

  // ---------------------------------------------------------------------------
  // Creation

  /** What the caller of `createRecipe` supplies.  The calories are a primitive
      field of the record, so they are always present (0 when never set). */
  datatype RecipeDraft = RecipeDraft(
    name: Option<string>,
    cookTime: Option<string>,
    prepTime: Option<string>,
    description: Option<string>,
    category: Option<string>,
    calories: int,
    ingredientParts: seq<Option<string>>)

  /** The inserted row: published now, no rating yet, no reviews, and the draft's
      calories, never null. */
  function NewRecipe(author: int, d: RecipeDraft, now: int): (r: Recipe)
    requires d.name.Some?
    ensures r.author == author && r.name == d.name.value && r.published == Some(now)
    ensures r.aggrRating.None? && r.reviewCnt == 0
    ensures r.calories == Some(d.calories)
  {
    Recipe(author, d.name.value, Some(now), d.cookTime, d.prepTime, d.description, d.category, None, 0, Some(d.calories))
  }

  /** The ingredient loop run against the stored tables. */
  function LinkDraft(d: Db, id: int, parts: seq<Option<string>>): Linking {
    Link(Linking(d.ingredients, d.ingredientSerial, d.hasIngredient, true), id, parts)
  }

  /** The ingredient loop of `createRecipe`: skip blank entries, look each name up,
      insert it with the next serial id when missing, and link it to the recipe; the
      first link that is already there stops the loop with a key violation. */
  method LinkParts(st: Store, rid: int, parts: seq<Option<string>>) returns (ok: bool)
    modifies st
    ensures var l := LinkDraft(old(st.Snapshot()), rid, parts);
      && ok == l.ok
      && st.Snapshot() == old(st.Snapshot()).(ingredients := l.ingredients, ingredientSerial := l.serial, hasIngredient := l.has)
  {
    ghost var goal := LinkDraft(st.Snapshot(), rid, parts);
    ok := true;
    var i := 0;
    while i < |parts| && ok
      invariant 0 <= i <= |parts|
      invariant Link(Linking(st.ingredients, st.ingredientSerial, st.hasIngredient, ok), rid, parts[i..]) == goal
      invariant st.Snapshot() == old(st.Snapshot()).(ingredients := st.ingredients, ingredientSerial := st.ingredientSerial,
                                                     hasIngredient := st.hasIngredient)
      decreases |parts| - i
    {
      ghost var before := Linking(st.ingredients, st.ingredientSerial, st.hasIngredient, ok);
      assert parts[i..][1..] == parts[i + 1..];
      var p := parts[i];
      if !Blank(p) {
        var name := p.value;
        if name !in st.ingredients {
          st.ingredientSerial := st.ingredientSerial + 1;
          st.ingredients := st.ingredients[name := st.ingredientSerial];
        }
        var ingId := st.ingredients[name];
        if (rid, ingId) in st.hasIngredient {
          ok := false;
        } else {
          st.hasIngredient := st.hasIngredient + {(rid, ingId)};
        }
      }
      assert Linking(st.ingredients, st.ingredientSerial, st.hasIngredient, ok) == LinkStep(before, rid, p);
      i := i + 1;
    }
  }

  /** Adding the recipe row and the loop's tables keeps the schema's constraints and
      every recipe's rating summary; the new recipe shows exactly the listed
      ingredients. */
  lemma CreateKeepsIntact(d: Db, id: int, row: Recipe, parts: seq<Option<string>>)
    requires Intact(d) && id !in d.recipes && row.author in d.users
    requires row.reviewCnt == 0 && row.aggrRating.None?
    ensures var l := LinkDraft(d, id, parts);
      && (l.ok <==> NoRepeatedName(parts))
      && l.serial >= d.ingredientSerial
      && IngredientsWellFormed(d.ingredients, l.serial)
      && (l.ok ==> Intact(d.(recipes := d.recipes[id := row], ingredients := l.ingredients, ingredientSerial := l.serial,
                             hasIngredient := l.has)))
      && (l.ok ==> IngredientNames(l.ingredients, l.has, id) == Names(parts))
      && (RatingsConsistent(d.recipes, d.reviews) ==> RatingsConsistent(d.recipes[id := row], d.reviews))
  {
    CreateLinkOutcome(d, id, parts);
    if LinkDraft(d, id, parts).ok {
      CreateLinkTables(d, id, row, parts);
    }
    CreateRatings(d, id, row);
  }

  /** A new recipe id has no ingredient linked to it yet. */
  lemma NothingLinkedYet(d: Db, id: int)
    requires Intact(d) && id !in d.recipes
    ensures Linked(Linking(d.ingredients, d.ingredientSerial, d.hasIngredient, true), id) == {}
  {
    forall n | n in d.ingredients ensures (id, d.ingredients[n]) !in d.hasIngredient {
    }
  }

  /** For a new recipe the loop fails exactly on a repeated name, and never moves the
      serial back. */
  lemma CreateLinkOutcome(d: Db, id: int, parts: seq<Option<string>>)
    requires Intact(d) && id !in d.recipes
    ensures var l := LinkDraft(d, id, parts);
      && (l.ok <==> NoRepeatedName(parts))
      && l.serial >= d.ingredientSerial
      && IngredientsWellFormed(d.ingredients, l.serial)
  {
    var s0 := Linking(d.ingredients, d.ingredientSerial, d.hasIngredient, true);
    NothingLinkedYet(d, id);
    LinkKeeps(s0, id, parts);
    LinkOk(s0, id, parts);
  }

  /** After a successful loop the tables with the new recipe row are intact and the
      recipe is linked to exactly the listed names. */
  lemma CreateLinkTables(d: Db, id: int, row: Recipe, parts: seq<Option<string>>)
    requires Intact(d) && id !in d.recipes && row.author in d.users
    requires LinkDraft(d, id, parts).ok
    ensures var l := LinkDraft(d, id, parts);
      && Intact(d.(recipes := d.recipes[id := row], ingredients := l.ingredients, ingredientSerial := l.serial,
                   hasIngredient := l.has))
      && IngredientNames(l.ingredients, l.has, id) == Names(parts)
  {
    var s0 := Linking(d.ingredients, d.ingredientSerial, d.hasIngredient, true);
    var l := LinkDraft(d, id, parts);
    NothingLinkedYet(d, id);
    LinkKeeps(s0, id, parts);
    LinkAdds(s0, id, parts);
    LinkPairs(s0, id, parts);
    var recipes := d.recipes[id := row];
    forall e | e in l.has ensures e.0 in recipes && e.1 in l.ingredients.Values {
    }
  }

  /** A recipe with no rating and no reviews keeps every rating summary consistent. */
  lemma CreateRatings(d: Db, id: int, row: Recipe)
    requires Intact(d) && id !in d.recipes
    requires row.reviewCnt == 0 && row.aggrRating.None?
    ensures RatingsConsistent(d.recipes, d.reviews) ==> RatingsConsistent(d.recipes[id := row], d.reviews)
  {
    assert ReviewsOf(d.reviews, id) == {} by {
      forall v | v in d.reviews ensures d.reviews[v].recipe != id {
      }
    }
  }

  /** `createRecipe`: after the login and the name check, the recipe gets the next
      id and its ingredients; a name listed twice breaks a key and rolls everything
      back except the ingredient sequence, which PostgreSQL never rolls back. */
  method CreateRecipe(st: Store, d: RecipeDraft, auth: AuthInfo, now: int) returns (r: Result<int>)
    requires st.Valid()
    modifies st
    ensures st.Valid()
    ensures var me := Login(old(st.users), auth);
      if me == -1 then
        r == Err(SecurityError) && st.Snapshot() == old(st.Snapshot())
      else if d.name.None? || d.name.value == "" then
        r == Err(IllegalArgument) && st.Snapshot() == old(st.Snapshot())
      else
        var id := NextId(old(st.recipes).Keys);
        var l := LinkDraft(old(st.Snapshot()), id, d.ingredientParts);
        if l.ok then
          && r == Ok(id)
          && st.Snapshot() == old(st.Snapshot()).(recipes := old(st.recipes)[id := NewRecipe(me, d, now)],
                                                  ingredients := l.ingredients, ingredientSerial := l.serial,
                                                  hasIngredient := l.has)
        else
          r == Err(IntegrityViolation) && st.Snapshot() == old(st.Snapshot()).(ingredientSerial := l.serial)
    ensures r == Err(IntegrityViolation) <==>
      Login(old(st.users), auth) != -1 && d.name.Some? && d.name.value != "" && !NoRepeatedName(d.ingredientParts)
    ensures r.Ok? ==>
      GetRecipeById(st.users, st.recipes, st.ingredients, st.hasIngredient, r.value)
        == Some(RecipeView(r.value, auth.authorId, Some(st.users[auth.authorId].name), d.name.value, Some(now),
                           d.cookTime, d.prepTime, TotalTime(d.cookTime, d.prepTime), d.description, d.category,
                           0, 0, d.calories, Names(d.ingredientParts)))
    ensures old(RatingsConsistent(st.recipes, st.reviews)) ==> RatingsConsistent(st.recipes, st.reviews)
  {
    var me := Login(st.users, auth);
    if me == -1 {
      return Err(SecurityError);
    }
    if d.name.None? || d.name.value == "" {
      return Err(IllegalArgument);
    }
    var saved := st.Snapshot();
    var id := NextId(st.recipes.Keys);
    var row := NewRecipe(me, d, now);
    CreateKeepsIntact(saved, id, row, d.ingredientParts);
    st.recipes := st.recipes[id := row];
    var ok := LinkParts(st, id, d.ingredientParts);
    if !ok {
      // the transaction rolls back; the ingredient sequence keeps its advance
      st.recipes := saved.recipes;
      st.ingredients := saved.ingredients;
      st.hasIngredient := saved.hasIngredient;
      return Err(IntegrityViolation);
    }
    r := Ok(id);
  }

  // ---------------------------------------------------------------------------
  // Deletion

  /** The review table without the reviews of recipe `rid`. */
  function ReviewsWithout(reviews: map<int, Review>, rid: int): (r: map<int, Review>)
    ensures r.Keys == reviews.Keys - ReviewsOf(reviews, rid)
    ensures forall v | v in r :: r[v] == reviews[v]
  {
    map v | v in reviews && reviews[v].recipe != rid :: reviews[v]
  }

  /** The likes without those of the reviews of recipe `rid`. */
  function LikesWithout(likes: set<(int, int)>, reviews: map<int, Review>, rid: int): (l: set<(int, int)>)
    ensures l <= likes
    ensures forall e | e in likes :: e in l <==> e.1 !in ReviewsOf(reviews, rid)
  {
    set e | e in likes && e.1 !in ReviewsOf(reviews, rid)
  }

  /** has_ingredient without the links of recipe `rid`. */
  function LinksWithout(has: set<(int, int)>, rid: int): (h: set<(int, int)>)
    ensures h <= has
    ensures forall e | e in has :: e in h <==> e.0 != rid
  {
    set e | e in has && e.0 != rid
  }

  /** The tables after the four deletes of `deleteRecipe`. */
  function WithoutRecipe(d: Db, rid: int): Db {
    d.(likes := LikesWithout(d.likes, d.reviews, rid),
       reviews := ReviewsWithout(d.reviews, rid),
       hasIngredient := LinksWithout(d.hasIngredient, rid),
       recipes := d.recipes - {rid})
  }

  /** Deleting a recipe with its reviews, their likes and its links leaves no
      dangling reference, and leaves every other recipe's rating summary as it was. */
  lemma DeleteRecipeKeepsIntact(d: Db, rid: int)
    requires Intact(d)
    ensures Intact(WithoutRecipe(d, rid))
    ensures RatingsConsistent(d.recipes, d.reviews) ==>
      var e := WithoutRecipe(d, rid); RatingsConsistent(e.recipes, e.reviews)
  {
    var e := WithoutRecipe(d, rid);
    if RatingsConsistent(d.recipes, d.reviews) {
      forall x | x in e.recipes
        ensures e.recipes[x].reviewCnt == |ReviewsOf(e.reviews, x)|
        ensures e.recipes[x].aggrRating == Aggregate(e.reviews, x)
      {
        assert ReviewsOf(e.reviews, x) == ReviewsOf(d.reviews, x);
        AggregateFrame(d.reviews, e.reviews, x);
      }
    }
  }

  /** `getNameFromID` after `createRecipe`: the new id yields the draft's name and
      every other id what it yielded before. */
  lemma GetNameFromIdCreated(recipes: map<int, Recipe>, id: int, author: int, d: RecipeDraft, now: int)
    requires d.name.Some?
    ensures var after := recipes[id := NewRecipe(author, d, now)];
      && GetNameFromId(after, id) == d.name
      && forall x | x != id :: GetNameFromId(after, x) == GetNameFromId(recipes, x)
  {
  }

  /** A created recipe always has calories, so it takes part in the closest-pair
      search and is sorted by its calories under `calories_asc`. */
  lemma CreatedHasCalories(recipes: map<int, Recipe>, id: int, author: int, d: RecipeDraft, now: int)
    requires d.name.Some?
    ensures var after := recipes[id := NewRecipe(author, d, now)];
      && id in CalorieIds(after) && after[id].calories.value == d.calories
  {
  }

  /** `getNameFromID` after `deleteRecipe`: the deleted id yields null and every other
      id what it yielded before. */
  lemma GetNameFromIdDeleted(d: Db, rid: int)
    ensures var after := WithoutRecipe(d, rid).recipes;
      && GetNameFromId(after, rid).None?
      && forall x | x != rid :: GetNameFromId(after, x) == GetNameFromId(d.recipes, x)
  {
  }

  /** `deleteRecipe`: only the author may delete, and the recipe's likes, reviews and
      ingredient links go with it. */
  method DeleteRecipe(st: Store, rid: int, auth: AuthInfo) returns (r: Result<()>)
    requires st.Valid()
    modifies st
    ensures st.Valid()
    ensures var me := Login(old(st.users), auth);
      if me == -1 then
        r == Err(SecurityError) && st.Snapshot() == old(st.Snapshot())
      else if rid !in old(st.recipes) then
        r == Err(IllegalArgument) && st.Snapshot() == old(st.Snapshot())
      else if old(st.recipes)[rid].author != me then
        r == Err(SecurityError) && st.Snapshot() == old(st.Snapshot())
      else
        r == Ok(()) && st.Snapshot() == WithoutRecipe(old(st.Snapshot()), rid)
    ensures r.Ok? ==> GetRecipeById(st.users, st.recipes, st.ingredients, st.hasIngredient, rid).None?
    ensures r.Ok? ==> forall v | v in st.reviews :: st.reviews[v].recipe != rid
    ensures old(RatingsConsistent(st.recipes, st.reviews)) ==> RatingsConsistent(st.recipes, st.reviews)
  {
    var me := Login(st.users, auth);
    if me == -1 {
      return Err(SecurityError);
    }
    if rid !in st.recipes {
      return Err(IllegalArgument);
    }
    if st.recipes[rid].author != me {
      return Err(SecurityError);
    }
    DeleteRecipeKeepsIntact(st.Snapshot(), rid);
    st.likes := LikesWithout(st.likes, st.reviews, rid);
    st.reviews := ReviewsWithout(st.reviews, rid);
    st.hasIngredient := LinksWithout(st.hasIngredient, rid);
    st.recipes := st.recipes - {rid};
    r := Ok(());
  }

  // ---------------------------------------------------------------------------
  // Times

  /** The row after `updateTimes`: each given time replaces the stored one. */
  function WithTimes(rec: Recipe, cook: Option<string>, prep: Option<string>): (r: Recipe)
    ensures r.cookTime == (if cook.Some? then cook else rec.cookTime)
    ensures r.prepTime == (if prep.Some? then prep else rec.prepTime)
    ensures r.(cookTime := rec.cookTime, prepTime := rec.prepTime) == rec
  {
    rec.(cookTime := if cook.Some? then cook else rec.cookTime, prepTime := if prep.Some? then prep else rec.prepTime)
  }

  /** A given time must be an ISO 8601 duration. */
  predicate ValidTime(t: Option<string>) {
    t.None? || Parse(t.value).Some?
  }

  /** `updateTimes`: both given times are checked before the recipe is looked up;
      only the author may change them. */
  method UpdateTimes(st: Store, auth: AuthInfo, rid: int, cook: Option<string>, prep: Option<string>) returns (r: Result<()>)
    requires st.Valid()
    modifies st
    ensures st.Valid()
    ensures var me := Login(old(st.users), auth);
      if me == -1 then
        r == Err(SecurityError) && st.Snapshot() == old(st.Snapshot())
      else if !ValidTime(cook) || !ValidTime(prep) then
        r == Err(IllegalArgument) && st.Snapshot() == old(st.Snapshot())
      else if rid !in old(st.recipes) then
        r == Err(IllegalArgument) && st.Snapshot() == old(st.Snapshot())
      else if old(st.recipes)[rid].author != me then
        r == Err(SecurityError) && st.Snapshot() == old(st.Snapshot())
      else
        && r == Ok(())
        && st.Snapshot() == old(st.Snapshot()).(recipes := old(st.recipes)[rid := WithTimes(old(st.recipes)[rid], cook, prep)])
    ensures r.Ok? && cook.Some? ==> Seconds(st.recipes[rid].cookTime) == Parse(cook.value)
    ensures r.Ok? && prep.Some? ==> Seconds(st.recipes[rid].prepTime) == Parse(prep.value)
    ensures old(RatingsConsistent(st.recipes, st.reviews)) ==> RatingsConsistent(st.recipes, st.reviews)
  {
    var me := Login(st.users, auth);
    if me == -1 {
      return Err(SecurityError);
    }
    if (cook.Some? && Parse(cook.value).None?) || (prep.Some? && Parse(prep.value).None?) {
      return Err(IllegalArgument);
    }
    if rid !in st.recipes {
      return Err(IllegalArgument);
    }
    if st.recipes[rid].author != me {
      return Err(SecurityError);
    }
    r := Ok(());
    if cook.None? && prep.None? {
      assert st.recipes[rid := WithTimes(st.recipes[rid], cook, prep)] == st.recipes;
      return;
    }
    st.recipes := st.recipes[rid := WithTimes(st.recipes[rid], cook, prep)];
  }
}
