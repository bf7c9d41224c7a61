/** The read-only half of the recipe service: lookups, the total cooking time, the
    filtered and sorted search, the recipes with most ingredients and the pair of
    recipes closest in calories. */
module RecipeQueries {
  import opened Wrappers
  import opened Sets
  import opened Ordering
  import opened StoreModel
  import opened Durations
  import opened IngredientLinking
  import opened UserService

  // ---------------------------------------------------------------------------
  // Lookups

  /** `getNameFromID`: the recipe's name, or null when there is no such recipe. */
  function GetNameFromId(recipes: map<int, Recipe>, id: int): (r: Option<string>)
    ensures r.Some? <==> id in recipes
    ensures r.Some? ==> r.value == recipes[id].name
  {
    if id in recipes then Some(recipes[id].name) else None
  }

  /** A stored time in seconds: null and the empty text count as zero, anything else
      must parse. */
  function Seconds(t: Option<string>): (r: Option<nat>)
    ensures t.None? || t.value == "" ==> r == Some(0)
    ensures r.Some? ==> r.value <= LongMax
  {
    if t.None? || t.value == "" then Some(0) else Parse(t.value)
  }

  /** `calculateTotalTime`: the sum of both times printed as a duration, or null when
      a time does not parse, the sum overflows the seconds of a `Duration`
      (`Duration.plus` adds with `Math.addExact`) or the sum is zero. */
  function TotalTime(cook: Option<string>, prep: Option<string>): (r: Option<string>)
    ensures r.Some? <==> Seconds(cook).Some? && Seconds(prep).Some? && 0 < Seconds(cook).value + Seconds(prep).value <= LongMax
    ensures r.Some? ==> Parse(r.value) == Some(Seconds(cook).value + Seconds(prep).value)
  {
    PrintedSum(Seconds(cook), Seconds(prep))
  }

  /** The printed sum of two parsed times, or null when one is missing, the sum is
      zero or it does not fit in a `Duration`. */
  function PrintedSum(c: Option<nat>, p: Option<nat>): (r: Option<string>)
    ensures r.Some? <==> c.Some? && p.Some? && 0 < c.value + p.value <= LongMax
    ensures r.Some? ==> Parse(r.value) == Some(c.value + p.value)
  {
    if c.None? || p.None? then None
    else
      var n := c.value + p.value;
      if n == 0 || n > LongMax then None
      else
        ParseFormat(n);
        Some(Format(n))
  }

  /** A recipe as the services return it. */
  datatype RecipeView = RecipeView(
    id: int,
    authorId: int,
    authorName: Option<string>,
    name: string,
    published: Option<int>,
    cookTime: Option<string>,
    prepTime: Option<string>,
    totalTime: Option<string>,
    description: Option<string>,
    category: Option<string>,
    aggregatedRating: int,
    reviewCount: int,
    calories: int,
    ingredients: set<string>)

  /** The row of `recipe`, its author's name through a left join, null ratings and
      calories read as zero, the total time and the linked ingredient names. */
  function View(users: map<int, User>, recipes: map<int, Recipe>, ingredients: map<string, int>,
                has: set<(int, int)>, id: int): (v: RecipeView)
    requires id in recipes
    ensures v.id == id && v.authorId == recipes[id].author && v.name == recipes[id].name
    ensures v.authorName == (if recipes[id].author in users then Some(users[recipes[id].author].name) else None)
    ensures v.published == recipes[id].published && v.description == recipes[id].description
    ensures v.category == recipes[id].category && v.reviewCount == recipes[id].reviewCnt
    ensures v.cookTime == recipes[id].cookTime && v.prepTime == recipes[id].prepTime
    ensures v.totalTime == TotalTime(recipes[id].cookTime, recipes[id].prepTime)
    ensures v.aggregatedRating == (if recipes[id].aggrRating.Some? then recipes[id].aggrRating.value else 0)
    ensures v.calories == (if recipes[id].calories.Some? then recipes[id].calories.value else 0)
    ensures forall n :: n in v.ingredients <==> n in ingredients && (id, ingredients[n]) in has
  {
    var r := recipes[id];
    RecipeView(id, r.author, if r.author in users then Some(users[r.author].name) else None,
               r.name, r.published, r.cookTime, r.prepTime, TotalTime(r.cookTime, r.prepTime),
               r.description, r.category, r.aggrRating.GetOr(0), r.reviewCnt, r.calories.GetOr(0),
               IngredientNames(ingredients, has, id))
  }

  /** The views of the listed recipes, in order. */
  function Views(users: map<int, User>, recipes: map<int, Recipe>, ingredients: map<string, int>,
                 has: set<(int, int)>, ids: seq<int>): (vs: seq<RecipeView>)
    requires forall k | 0 <= k < |ids| :: ids[k] in recipes
    ensures |vs| == |ids|
    ensures forall k | 0 <= k < |ids| :: vs[k].id == ids[k] && vs[k] == View(users, recipes, ingredients, has, ids[k])
    decreases |ids|
  {
    if ids == [] then []
    else Views(users, recipes, ingredients, has, ids[..|ids| - 1]) + [View(users, recipes, ingredients, has, ids[|ids| - 1])]
  }

  /** `getRecipeById`: the recipe, or null when there is none. */
  function GetRecipeById(users: map<int, User>, recipes: map<int, Recipe>, ingredients: map<string, int>,
                         has: set<(int, int)>, id: int): (r: Option<RecipeView>)
    ensures r.Some? <==> id in recipes
    ensures r.Some? ==> r.value == View(users, recipes, ingredients, has, id)
    ensures r.Some? ==>
      && r.value.id == id && r.value.authorId == recipes[id].author && r.value.name == recipes[id].name
      && (r.value.authorName.Some? <==> recipes[id].author in users)
      && r.value.aggregatedRating == (if recipes[id].aggrRating.Some? then recipes[id].aggrRating.value else 0)
      && r.value.calories == (if recipes[id].calories.Some? then recipes[id].calories.value else 0)
      && (forall n | n in ingredients :: n in r.value.ingredients <==> (id, ingredients[n]) in has)
      && r.value.totalTime == TotalTime(recipes[id].cookTime, recipes[id].prepTime)
  {
    if id in recipes then Some(View(users, recipes, ingredients, has, id)) else None
  }

  // ---------------------------------------------------------------------------
  // Search

  /** ASCII case folding, as `ILIKE` compares letters. */
  function FoldChar(c: char): char {
    if 'A' <= c <= 'Z' then (c as int + 32) as char else c
  }

  function Fold(s: string): (t: string)
    ensures |t| == |s|
    ensures forall i | 0 <= i < |s| :: t[i] == FoldChar(s[i])
  {
    seq(|s|, i requires 0 <= i < |s| => FoldChar(s[i]))
  }

  predicate MatchesAt(text: string, keyword: string, i: int)
    requires 0 <= i <= |text| - |keyword|
  {
    Fold(text[i..i + |keyword|]) == Fold(keyword)
  }

  /** `text ILIKE '%keyword%'`: the keyword occurs in the text, letters compared
      without regard to case. */
  predicate ContainsIgnoringCase(text: string, keyword: string) {
    exists i | 0 <= i <= |text| - |keyword| :: MatchesAt(text, keyword, i)
  }

  /** The keyword is found wherever it occurs verbatim, and it is found in the text
      whatever the case of its letters. */
  lemma ContainsIgnoringCaseSpec(pre: string, keyword: string, post: string)
    ensures ContainsIgnoringCase(pre + keyword + post, keyword)
    ensures ContainsIgnoringCase(pre + keyword + post, Fold(keyword))
  {
    var text := pre + keyword + post;
    assert text[|pre|..|pre| + |keyword|] == keyword;
    assert Fold(Fold(keyword)) == Fold(keyword);
    assert MatchesAt(text, keyword, |pre|);
    assert MatchesAt(text, Fold(keyword), |pre|);
  }

  predicate KeywordMatches(r: Recipe, keyword: Option<string>) {
    || keyword.None? || keyword.value == ""
    || ContainsIgnoringCase(r.name, keyword.value)
    || (r.description.Some? && ContainsIgnoringCase(r.description.value, keyword.value))
  }

  predicate CategoryMatches(r: Recipe, category: Option<string>) {
    category.None? || category.value == "" || r.category == category
  }

  /** A null aggregate never passes a minimum; both sides are in hundredths. */
  predicate RatingMatches(r: Recipe, minRating: Option<int>) {
    minRating.None? || (r.aggrRating.Some? && r.aggrRating.value >= minRating.value)
  }

  /** The recipes the WHERE clause of `searchRecipes` admits. */
  function SearchMatches(recipes: map<int, Recipe>, keyword: Option<string>, category: Option<string>,
                         minRating: Option<int>): (s: set<int>)
    ensures s <= recipes.Keys
  {
    set r | r in recipes && KeywordMatches(recipes[r], keyword) && CategoryMatches(recipes[r], category)
      && RatingMatches(recipes[r], minRating)
  }

  /** A nullable column in `DESC NULLS LAST` order, the id breaking ties. */
  function DescNullsLast(v: Option<int>, id: int): Key {
    if v.None? then Key(1, 0, id) else Key(0, -v.value, id)
  }

  /** The ORDER BY the `sort` argument selects; any other value, null included,
      orders by id alone. */
  function SearchKeys(recipes: map<int, Recipe>, s: set<int>, sort: Option<string>): (keys: map<int, Key>)
    requires s <= recipes.Keys
    ensures IdTieBreak(s, keys)
  {
    map r | r in s ::
      if sort == Some("rating_desc") then DescNullsLast(recipes[r].aggrRating, r)
      else if sort == Some("date_desc") then DescNullsLast(recipes[r].published, r)
      else if sort == Some("calories_asc") then
        (if recipes[r].calories.None? then Key(1, 0, r) else Key(0, recipes[r].calories.value, r))
      else Key(0, 0, r)
  }

  /** Under `rating_desc` a recipe with a higher rating is listed first, and rated
      recipes come before unrated ones. */
  lemma RatingDescOrder(recipes: map<int, Recipe>, s: set<int>, x: int, y: int)
    requires s <= recipes.Keys && x in s && y in s
    requires recipes[x].aggrRating.Some?
    requires recipes[y].aggrRating.None? || recipes[y].aggrRating.value < recipes[x].aggrRating.value
    ensures var keys := SearchKeys(recipes, s, Some("rating_desc")); KeyLess(keys[x], keys[y])
  {
  }

  /** Under `calories_asc` a recipe with fewer calories is listed first, and recipes
      without calories come last. */
  lemma CaloriesAscOrder(recipes: map<int, Recipe>, s: set<int>, x: int, y: int)
    requires s <= recipes.Keys && x in s && y in s
    requires recipes[x].calories.Some?
    requires recipes[y].calories.None? || recipes[x].calories.value < recipes[y].calories.value
    ensures var keys := SearchKeys(recipes, s, Some("calories_asc")); KeyLess(keys[x], keys[y])
  {
  }

  /** A result page of `searchRecipes` over the matches `m` ordered by `keys`: page
      and size as asked, the number of matches as total, and as items the views of
      the matches ranked from the offset `(page - 1) * size` computed in 32 bits
      onwards, as many as fit, in key order. */
  predicate SearchPage(users: map<int, User>, recipes: map<int, Recipe>, ingredients: map<string, int>,
                       has: set<(int, int)>, m: set<int>, keys: map<int, Key>, page: int, size: int,
                       p: Page<RecipeView>)
    requires m <= recipes.Keys && m <= keys.Keys
  {
    && p.page == page && p.size == size && p.total == |m|
    && |p.items| == (if Offset(page, size) >= |m| then 0 else Smaller(size, |m| - Offset(page, size)))
    && (forall i | 0 <= i < |p.items| ::
          && p.items[i].id in m && Rank(m, keys, p.items[i].id) == Offset(page, size) + i
          && p.items[i] == View(users, recipes, ingredients, has, p.items[i].id))
    && (forall i, j | 0 <= i < j < |p.items| :: KeyLess(keys[p.items[i].id], keys[p.items[j].id]))
  }

  /** The views of the ids of the sorted page make a search result page. */
  lemma PageOfViews(users: map<int, User>, recipes: map<int, Recipe>, ingredients: map<string, int>,
                    has: set<(int, int)>, m: set<int>, keys: map<int, Key>, page: int, size: int, ids: seq<int>)
    requires m <= recipes.Keys && IdTieBreak(m, keys) && size >= 1 && Offset(page, size) >= 0
    requires ids == SortedPage(m, keys, Offset(page, size), size)
    ensures SearchPage(users, recipes, ingredients, has, m, keys, page, size,
                       Page(Views(users, recipes, ingredients, has, ids), page, size, |m|))
  {
    var items := Views(users, recipes, ingredients, has, ids);
    assert forall i | 0 <= i < |items| :: items[i].id == ids[i];
  }

  /** `searchRecipes`: one page of the matching recipes in the requested order, each
      with its total time and ingredient names, and the number of matches.  A page and
      size whose 32-bit offset is negative make the database refuse the query. */
  method SearchRecipes(st: Store, keyword: Option<string>, category: Option<string>, minRating: Option<int>,
                       page: int, size: int, sort: Option<string>) returns (r: Result<Page<RecipeView>>)
    ensures r.Err? <==> page < 1 || size <= 0 || Offset(page, size) < 0
    ensures r.Err? ==> r.error == if page < 1 || size <= 0 then IllegalArgument else QueryRejected
    ensures r.Ok? ==>
      var m := SearchMatches(st.recipes, keyword, category, minRating);
      SearchPage(st.users, st.recipes, st.ingredients, st.hasIngredient, m, SearchKeys(st.recipes, m, sort), page, size, r.value)
  {
    if page < 1 || size <= 0 {
      return Err(IllegalArgument);
    }
    var lo := Offset(page, size);
    if lo < 0 {
      return Err(QueryRejected);
    }
    var m := SearchMatches(st.recipes, keyword, category, minRating);
    var keys := SearchKeys(st.recipes, m, sort);
    var ids := SortedPage(m, keys, lo, size);
    var items := FillViews(st.users, st.recipes, st.ingredients, st.hasIngredient, ids);
    PageOfViews(st.users, st.recipes, st.ingredients, st.hasIngredient, m, keys, page, size, ids);
    return Ok(Page(items, page, size, |m|));
  }

  /** The loop of `searchRecipes` that completes each fetched row with its
      ingredient names. */
  method FillViews(users: map<int, User>, recipes: map<int, Recipe>, ingredients: map<string, int>,
                   has: set<(int, int)>, ids: seq<int>) returns (items: seq<RecipeView>)
    requires forall k | 0 <= k < |ids| :: ids[k] in recipes
    ensures items == Views(users, recipes, ingredients, has, ids)
  {
    items := [];
    for i := 0 to |ids|
      invariant items == Views(users, recipes, ingredients, has, ids[..i])
    {
      assert ids[..i + 1][..i] == ids[..i];
      items := items + [View(users, recipes, ingredients, has, ids[i])];
    }
    assert ids[..|ids|] == ids;
  }

  // ---------------------------------------------------------------------------
  // Recipes with most ingredients

  datatype ComplexRow = ComplexRow(recipeId: int, name: string, ingredientCount: int)

  /** The recipes the inner join with has_ingredient keeps. */
  function WithIngredients(recipes: map<int, Recipe>, has: set<(int, int)>): set<int> {
    set r | r in recipes && Outgoing(has, r) >= 1
  }

  /** `ORDER BY cnt DESC, recipe_id ASC`. */
  function ComplexityKeys(has: set<(int, int)>, s: set<int>): (keys: map<int, Key>)
    ensures IdTieBreak(s, keys)
    ensures forall r | r in s :: keys[r] == Key(0, -(Outgoing(has, r) as int), r)
  {
    map r | r in s :: Key(0, -(Outgoing(has, r) as int), r)
  }

  /** Row `a` is listed before recipe `x` would be: more ingredients, or as many and a
      smaller id. */
  predicate MoreComplex(has: set<(int, int)>, a: ComplexRow, x: int) {
    a.ingredientCount > Outgoing(has, x) || (a.ingredientCount == Outgoing(has, x) && a.recipeId < x)
  }

  predicate Shown(rows: seq<ComplexRow>, x: int) {
    exists k | 0 <= k < |rows| :: rows[k].recipeId == x
  }

  /** The result rows for the listed ids. */
  function ComplexRows(recipes: map<int, Recipe>, has: set<(int, int)>, ids: seq<int>): (rows: seq<ComplexRow>)
    requires forall i | 0 <= i < |ids| :: ids[i] in recipes
    ensures |rows| == |ids|
    ensures forall i | 0 <= i < |ids| :: rows[i] == ComplexRow(ids[i], recipes[ids[i]].name, Outgoing(has, ids[i]))
  {
    seq(|ids|, i requires 0 <= i < |ids| => ComplexRow(ids[i], recipes[ids[i]].name, Outgoing(has, ids[i])))
  }

  lemma Top3Leads(recipes: map<int, Recipe>, has: set<(int, int)>, x: int, i: int)
    requires var c := WithIngredients(recipes, has); x in c
    requires var c := WithIngredients(recipes, has);
      var ids := SortedPage(c, ComplexityKeys(has, c), 0, 3);
      !Shown(ComplexRows(recipes, has, ids), x) && 0 <= i < |ids|
    ensures var c := WithIngredients(recipes, has);
      var ids := SortedPage(c, ComplexityKeys(has, c), 0, 3);
      MoreComplex(has, ComplexRows(recipes, has, ids)[i], x)
  {
    var c := WithIngredients(recipes, has);
    var keys := ComplexityKeys(has, c);
    var ids := SortedPage(c, keys, 0, 3);
    var rows := ComplexRows(recipes, has, ids);
    forall k | 0 <= k < |ids| ensures ids[k] != x {
      assert rows[k].recipeId == ids[k];
    }
    FirstPageLeads(c, keys, 3, x, i);
  }

  /** `getTop3MostComplexRecipesByIngredients`: up to three recipes with the most
      ingredients.  Every recipe left out has no more ingredients than any listed one
      (and a larger id when it has as many). */
  function Top3(recipes: map<int, Recipe>, has: set<(int, int)>): (rows: seq<ComplexRow>)
    ensures var c := WithIngredients(recipes, has); |rows| == Smaller(3, |c|)
    ensures forall i | 0 <= i < |rows| ::
      && rows[i].recipeId in WithIngredients(recipes, has)
      && rows[i].name == recipes[rows[i].recipeId].name
      && rows[i].ingredientCount == Outgoing(has, rows[i].recipeId)
    ensures forall i, j | 0 <= i < j < |rows| :: MoreComplex(has, rows[i], rows[j].recipeId)
    ensures forall x, i | x in WithIngredients(recipes, has) && !Shown(rows, x) && 0 <= i < |rows| ::
      MoreComplex(has, rows[i], x)
  {
    var c := WithIngredients(recipes, has);
    var keys := ComplexityKeys(has, c);
    var ids := SortedPage(c, keys, 0, 3);
    var rows := ComplexRows(recipes, has, ids);
    forall x, i | x in c && !Shown(rows, x) && 0 <= i < |rows| ensures MoreComplex(has, rows[i], x) {
      Top3Leads(recipes, has, x, i);
    }
    rows
  }

  // ---------------------------------------------------------------------------
  // Closest calorie pair

  datatype CaloriePair = CaloriePair(recipeA: int, recipeB: int, caloriesA: int, caloriesB: int, difference: int)

  /** The recipes the query selects: those with a calorie value. */
  function CalorieIds(recipes: map<int, Recipe>): (s: set<int>)
    ensures s <= recipes.Keys
    ensures forall r | r in s :: recipes[r].calories.Some?
  {
    set r | r in recipes && recipes[r].calories.Some?
  }

  function Abs(x: int): int {
    if x < 0 then -x else x
  }

  /** How close two recipes are: the calorie difference, then the smaller and the
      larger id, compared in that order. */
  datatype Closeness = Closeness(diff: int, lo: int, hi: int)

  predicate CloseLe(p: Closeness, q: Closeness) {
    p.diff < q.diff || (p.diff == q.diff && (p.lo < q.lo || (p.lo == q.lo && p.hi <= q.hi)))
  }

  /** Nodes are (recipe id, calories). */
  function Closeness2(a: (int, int), b: (int, int)): Closeness {
    Closeness(Abs(a.1 - b.1), Smaller(a.0, b.0), Larger(a.0, b.0))
  }

  /** `a` is a recipe with calories, paired with those calories. */
  predicate IsRow(recipes: map<int, Recipe>, a: (int, int)) {
    a.0 in CalorieIds(recipes) && a.1 == recipes[a.0].calories.value
  }

  /** Sorted by `calories ASC, recipe_id ASC`. */
  predicate SortedNodes(nodes: seq<(int, int)>) {
    forall a, b | 0 <= a < b < |nodes| ::
      nodes[a].1 < nodes[b].1 || (nodes[a].1 == nodes[b].1 && nodes[a].0 < nodes[b].0)
  }

  /** `ORDER BY calories ASC, recipe_id ASC`. */
  function CalorieKeys(recipes: map<int, Recipe>): (keys: map<int, Key>)
    ensures IdTieBreak(CalorieIds(recipes), keys)
    ensures forall r | r in CalorieIds(recipes) :: keys[r] == Key(0, recipes[r].calories.value, r)
  {
    map r | r in CalorieIds(recipes) :: Key(0, recipes[r].calories.value, r)
  }

  function NodesOf(recipes: map<int, Recipe>, ids: seq<int>): (nodes: seq<(int, int)>)
    requires forall k | 0 <= k < |ids| :: ids[k] in recipes && recipes[ids[k]].calories.Some?
    ensures |nodes| == |ids|
    ensures forall k | 0 <= k < |ids| :: nodes[k] == (ids[k], recipes[ids[k]].calories.value)
  {
    seq(|ids|, k requires 0 <= k < |ids| => (ids[k], recipes[ids[k]].calories.value))
  }

  /** The rows of `SELECT recipe_id, calories ... ORDER BY calories ASC, recipe_id ASC`. */
  function CalorieNodes(recipes: map<int, Recipe>): (nodes: seq<(int, int)>)
    ensures SortedNodes(nodes)
    ensures |nodes| == |CalorieIds(recipes)|
    ensures forall k | 0 <= k < |nodes| :: IsRow(recipes, nodes[k])
    ensures forall x | x in CalorieIds(recipes) :: exists k | 0 <= k < |nodes| :: nodes[k].0 == x
  {
    var s := CalorieIds(recipes);
    var ids := Sort(s, CalorieKeys(recipes));
    NodesSorted(recipes, ids);
    NodesCover(recipes, s, ids);
    NodesOf(recipes, ids)
  }

  /** Ids in ascending (calories, id) order give nodes in that order. */
  lemma NodesSorted(recipes: map<int, Recipe>, ids: seq<int>)
    requires forall k | 0 <= k < |ids| :: ids[k] in CalorieIds(recipes) && ids[k] in recipes && recipes[ids[k]].calories.Some?
    requires forall i, j | 0 <= i < j < |ids| :: KeyLess(CalorieKeys(recipes)[ids[i]], CalorieKeys(recipes)[ids[j]])
    ensures SortedNodes(NodesOf(recipes, ids))
  {
    var keys := CalorieKeys(recipes);
    var nodes := NodesOf(recipes, ids);
    forall a, b | 0 <= a < b < |nodes|
      ensures nodes[a].1 < nodes[b].1 || (nodes[a].1 == nodes[b].1 && nodes[a].0 < nodes[b].0)
    {
      assert KeyLess(keys[ids[a]], keys[ids[b]]);
    }
  }

  /** Every id listed gives a node. */
  lemma NodesCover(recipes: map<int, Recipe>, s: set<int>, ids: seq<int>)
    requires forall k | 0 <= k < |ids| :: ids[k] in recipes && recipes[ids[k]].calories.Some?
    requires forall x :: x in ids <==> x in s
    ensures forall x | x in s :: exists k | 0 <= k < |NodesOf(recipes, ids)| :: NodesOf(recipes, ids)[k].0 == x
  {
    var nodes := NodesOf(recipes, ids);
    forall x | x in s ensures exists k | 0 <= k < |nodes| :: nodes[k].0 == x {
      assert x in ids;
      var k :| 0 <= k < |ids| && ids[k] == x;
      assert nodes[k].0 == x;
    }
  }

  /** Among the pairs of nodes at positions `i < j`, some adjacent pair is at least
      as close: sorting reduces the search to neighbours. */
  lemma AdjacentSuffices(nodes: seq<(int, int)>, i: int, j: int) returns (k: int)
    requires SortedNodes(nodes) && 0 <= i < j < |nodes|
    ensures 0 <= k < |nodes| - 1
    ensures CloseLe(Closeness2(nodes[k], nodes[k + 1]), Closeness2(nodes[i], nodes[j]))
  {
    if j == i + 1 || nodes[i + 1].1 < nodes[j].1 {
      k := i;
    } else if nodes[i].1 < nodes[j].1 {
      k := i + 1;
      assert nodes[i + 1].1 <= nodes[i + 2].1 <= nodes[j].1;
    } else {
      k := i;
    }
  }

  /** The adjacent pair at `best` is at least as close as every adjacent pair, hence
      as close as every pair. */
  lemma ClosestOverall(nodes: seq<(int, int)>, best: int, a: int, b: int)
    requires SortedNodes(nodes) && 0 <= best < |nodes| - 1
    requires forall k | 0 <= k < |nodes| - 1 ::
      CloseLe(Closeness2(nodes[best], nodes[best + 1]), Closeness2(nodes[k], nodes[k + 1]))
    requires 0 <= a < |nodes| && 0 <= b < |nodes| && a != b
    ensures CloseLe(Closeness2(nodes[best], nodes[best + 1]), Closeness2(nodes[a], nodes[b]))
  {
    var i, j := if a < b then a else b, if a < b then b else a;
    var k := AdjacentSuffices(nodes, i, j);
    assert Closeness2(nodes[i], nodes[j]) == Closeness2(nodes[a], nodes[b]);
  }

  /** `p` is at least as close as recipes `x` and `y`. */
  predicate NoFarther(recipes: map<int, Recipe>, p: CaloriePair, x: int, y: int)
    requires x in CalorieIds(recipes) && y in CalorieIds(recipes)
  {
    CloseLe(Closeness(p.difference, p.recipeA, p.recipeB),
            Closeness2((x, recipes[x].calories.value), (y, recipes[y].calories.value)))
  }

  /** The loop of `getClosestCaloriePair` over adjacent nodes: the first pair, then
      any closer pair, and on a tie in difference the pair with the smaller ids. */
  method ScanAdjacent(nodes: seq<(int, int)>) returns (bestA: (int, int), bestB: (int, int), minDiff: int, ghost best: int)
    requires |nodes| >= 2
    ensures 0 <= best < |nodes| - 1 && bestA == nodes[best] && bestB == nodes[best + 1]
    ensures minDiff == Abs(bestA.1 - bestB.1)
    ensures forall k | 0 <= k < |nodes| - 1 :: CloseLe(Closeness2(bestA, bestB), Closeness2(nodes[k], nodes[k + 1]))
  {
    var found := false;
    minDiff := 0;
    bestA, bestB := nodes[0], nodes[1];
    best := 0;
    for i := 0 to |nodes| - 1
      invariant found <==> i > 0
      invariant 0 <= best < |nodes| - 1 && bestA == nodes[best] && bestB == nodes[best + 1]
      invariant found ==> best < i && minDiff == Abs(bestA.1 - bestB.1)
      invariant found ==> forall k | 0 <= k < i :: CloseLe(Closeness2(bestA, bestB), Closeness2(nodes[k], nodes[k + 1]))
    {
      var a, b := nodes[i], nodes[i + 1];
      var diff := Abs(a.1 - b.1);
      if !found || diff < minDiff {
        minDiff := diff;
        bestA, bestB := a, b;
        best := i;
      } else if diff == minDiff {
        var curMin, curMax := Smaller(a.0, b.0), Larger(a.0, b.0);
        var bestMin, bestMax := Smaller(bestA.0, bestB.0), Larger(bestA.0, bestB.0);
        if curMin < bestMin || (curMin == bestMin && curMax < bestMax) {
          bestA, bestB := a, b;
          best := i;
        }
      }
      found := true;
    }
  }

  /** The adjacent pair the scan keeps is at least as close as any two recipes with
      calories. */
  lemma ScanIsGlobal(recipes: map<int, Recipe>, nodes: seq<(int, int)>, best: int, p: CaloriePair)
    requires SortedNodes(nodes) && 0 <= best < |nodes| - 1
    requires forall k | 0 <= k < |nodes| :: IsRow(recipes, nodes[k])
    requires forall x | x in CalorieIds(recipes) :: exists k | 0 <= k < |nodes| :: nodes[k].0 == x
    requires forall k | 0 <= k < |nodes| - 1 ::
      CloseLe(Closeness2(nodes[best], nodes[best + 1]), Closeness2(nodes[k], nodes[k + 1]))
    requires Closeness(p.difference, p.recipeA, p.recipeB) == Closeness2(nodes[best], nodes[best + 1])
    ensures forall x, y | x in CalorieIds(recipes) && y in CalorieIds(recipes) && x != y :: NoFarther(recipes, p, x, y)
  {
    forall x, y | x in CalorieIds(recipes) && y in CalorieIds(recipes) && x != y
      ensures NoFarther(recipes, p, x, y)
    {
      var a :| 0 <= a < |nodes| && nodes[a].0 == x;
      var b :| 0 <= b < |nodes| && nodes[b].0 == y;
      ClosestOverall(nodes, best, a, b);
      assert nodes[a] == (x, recipes[x].calories.value) && nodes[b] == (y, recipes[y].calories.value);
    }
  }

  /** The result map: the smaller id first, each id with its own calories. */
  function Ordered(a: (int, int), b: (int, int), diff: int): (p: CaloriePair)
    requires a.0 != b.0 && diff == Abs(a.1 - b.1)
    ensures p.recipeA < p.recipeB
    ensures || ((p.recipeA, p.caloriesA) == a && (p.recipeB, p.caloriesB) == b)
            || ((p.recipeA, p.caloriesA) == b && (p.recipeB, p.caloriesB) == a)
    ensures p.difference == Abs(p.caloriesA - p.caloriesB)
    ensures Closeness(p.difference, p.recipeA, p.recipeB) == Closeness2(a, b)
  {
    var id1, id2 := Smaller(a.0, b.0), Larger(a.0, b.0);
    CaloriePair(id1, id2, if id1 == a.0 then a.1 else b.1, if id2 == a.0 then a.1 else b.1, diff)
  }

  /** A pair put together from two rows names recipes with calories, each with its
      own calories. */
  lemma OrderedRows(recipes: map<int, Recipe>, a: (int, int), b: (int, int), p: CaloriePair)
    requires IsRow(recipes, a) && IsRow(recipes, b)
    requires || ((p.recipeA, p.caloriesA) == a && (p.recipeB, p.caloriesB) == b)
             || ((p.recipeA, p.caloriesA) == b && (p.recipeB, p.caloriesB) == a)
    ensures p.recipeA in CalorieIds(recipes) && p.recipeB in CalorieIds(recipes)
    ensures p.caloriesA == recipes[p.recipeA].calories.value && p.caloriesB == recipes[p.recipeB].calories.value
  {
  }

  /** `p` names two recipes with calories, the smaller id first, each with its own
      calories and their difference, and no two recipes with calories are closer. */
  predicate ClosestPair(recipes: map<int, Recipe>, p: CaloriePair) {
    && p.recipeA in CalorieIds(recipes) && p.recipeB in CalorieIds(recipes) && p.recipeA < p.recipeB
    && p.caloriesA == recipes[p.recipeA].calories.value && p.caloriesB == recipes[p.recipeB].calories.value
    && p.difference == Abs(p.caloriesA - p.caloriesB)
    && forall x, y | x in CalorieIds(recipes) && y in CalorieIds(recipes) && x != y :: NoFarther(recipes, p, x, y)
  }

  /** Sorted rows are distinct, so neighbours are two different recipes. */
  lemma NeighboursDiffer(recipes: map<int, Recipe>, nodes: seq<(int, int)>, k: int)
    requires SortedNodes(nodes) && 0 <= k < |nodes| - 1
    requires forall k | 0 <= k < |nodes| :: IsRow(recipes, nodes[k])
    ensures nodes[k].0 != nodes[k + 1].0
  {
    assert IsRow(recipes, nodes[k]) && IsRow(recipes, nodes[k + 1]);
    assert nodes[k].1 < nodes[k + 1].1 || nodes[k].0 < nodes[k + 1].0;
  }

  /** The pair made of the closest adjacent nodes names two recipes with calories,
      each with its own calories, and no two recipes are closer. */
  lemma ClosestOfNodes(recipes: map<int, Recipe>, nodes: seq<(int, int)>, best: int, p: CaloriePair)
    requires SortedNodes(nodes) && 0 <= best < |nodes| - 1
    requires forall k | 0 <= k < |nodes| :: IsRow(recipes, nodes[k])
    requires forall x | x in CalorieIds(recipes) :: exists k | 0 <= k < |nodes| :: nodes[k].0 == x
    requires nodes[best].0 != nodes[best + 1].0
    requires forall k | 0 <= k < |nodes| - 1 ::
      CloseLe(Closeness2(nodes[best], nodes[best + 1]), Closeness2(nodes[k], nodes[k + 1]))
    requires p == Ordered(nodes[best], nodes[best + 1], Abs(nodes[best].1 - nodes[best + 1].1))
    ensures ClosestPair(recipes, p)
  {
    OrderedRows(recipes, nodes[best], nodes[best + 1], p);
    ScanIsGlobal(recipes, nodes, best, p);
  }

  /** `getClosestCaloriePair`: of all pairs of recipes with calories, the one with the
      smallest difference, ties going to the smaller first id and then the smaller
      second id; null with fewer than two such recipes. */
  method ClosestCaloriePair(recipes: map<int, Recipe>) returns (r: Option<CaloriePair>)
    ensures r.None? <==> |CalorieIds(recipes)| < 2
    ensures r.Some? ==> ClosestPair(recipes, r.value)
  {
    var nodes := CalorieNodes(recipes);
    if |nodes| < 2 {
      return None;
    }
    var bestA, bestB, minDiff, best := ScanAdjacent(nodes);
    NeighboursDiffer(recipes, nodes, best);
    var p := Ordered(bestA, bestB, minDiff);
    ClosestOfNodes(recipes, nodes, best, p);
    return Some(p);
  }
}
