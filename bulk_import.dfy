/** The batching of `executeBulkInsert` and the relation lists `importData` builds from
    the import records before inserting them. */
module BulkImport {
  import opened Wrappers
  import opened Ordering

  /** The most parameters one insert statement binds. */
  const MaxParams := 30000

  /** Records per statement for records of `width` parameters: as many as fit in
      MaxParams parameters, and one when not even one fits. */
  function BatchSize(width: int): (b: int)
    requires width >= 1
    ensures b >= 1
  {
    var q := MaxParams / width;
    if q >= 1 then q else 1
  }

  /** A batch is the largest run of records whose parameters fit in MaxParams, or a
      single record when one record alone has more. */
  lemma BatchSizeFits(width: int)
    requires width >= 1
    ensures width <= MaxParams ==> BatchSize(width) * width <= MaxParams < (BatchSize(width) + 1) * width
    ensures width > MaxParams ==> BatchSize(width) == 1
  {
    var q := MaxParams / width;
    assert MaxParams == q * width + MaxParams % width;
    MulSucc(q, width);
  }

  /** The record list cut into consecutive batches of `size` records, the last one
      possibly shorter. */
  function Batches<T>(records: seq<T>, size: int): seq<seq<T>>
    requires size >= 1
    decreases |records|
  {
    if records == [] then []
    else
      var end := Smaller(size, |records|);
      [records[..end]] + Batches(records[end..], size)
  }

  function Flatten<T>(xss: seq<seq<T>>): seq<T>
    decreases |xss|
  {
    if xss == [] then [] else xss[0] + Flatten(xss[1..])
  }

  /** The batches put back together give the record list; none is empty and none is
      longer than the batch size; there are none exactly when there are no records. */
  lemma {:induction false} BatchesCover<T>(records: seq<T>, size: int)
    requires size >= 1
    ensures Flatten(Batches(records, size)) == records
    ensures Batches(records, size) == [] <==> records == []
    ensures forall k | 0 <= k < |Batches(records, size)| :: 1 <= |Batches(records, size)[k]| <= size
    decreases |records|
  {
    if records != [] {
      var end := Smaller(size, |records|);
      BatchesCover(records[end..], size);
      assert records[..end] + records[end..] == records;
    }
  }

  lemma MulSucc(x: int, w: int)
    ensures (x + 1) * w == x * w + w
  {
  }

  /** Batch k is the slice `[k*size, min(k*size+size, total))` of the records: the
      batches are consecutive and do not overlap. */
  lemma {:induction false} BatchesSlice<T>(records: seq<T>, size: int, k: int)
    requires size >= 1 && 0 <= k < |Batches(records, size)|
    ensures k * size < |records|
    ensures Batches(records, size)[k] == records[k * size .. Smaller(k * size + size, |records|)]
    decreases |records|
  {
    var end := Smaller(size, |records|);
    var rest := records[end..];
    assert Batches(records, size) == [records[..end]] + Batches(rest, size);
    if k > 0 {
      assert Batches(records, size)[k] == Batches(rest, size)[k - 1];
      assert rest != [] && end == size;
      BatchesSlice(rest, size, k - 1);
      MulSucc(k - 1, size);
      SliceShift(records, size, (k - 1) * size, Smaller((k - 1) * size + size, |rest|));
    }
  }

  lemma SliceShift<T>(xs: seq<T>, d: int, lo: int, hi: int)
    requires 0 <= d <= |xs| && 0 <= lo <= hi <= |xs| - d
    ensures xs[d..][lo..hi] == xs[lo + d .. hi + d]
    ensures Smaller(lo + d, |xs| - d) + d == Smaller(lo + d + d, |xs|)
  {
  }

  /** The arguments of a batch, record after record. */
  function Args<T, P>(batch: seq<T>, mapper: T -> seq<P>): seq<P>
    decreases |batch|
  {
    if batch == [] then [] else Args(batch[..|batch| - 1], mapper) + mapper(batch[|batch| - 1])
  }

  /** A list bound to the parameter indices 1, 2, ... in order. */
  function Numbered<P>(xs: seq<P>): map<int, P>
    decreases |xs|
  {
    if xs == [] then map[] else Numbered(xs[..|xs| - 1])[|xs| := xs[|xs| - 1]]
  }

  /** Element k of the list is bound at index k+1, and nothing else is bound. */
  lemma {:induction false} NumberedSpec<P>(xs: seq<P>)
    ensures forall k :: k in Numbered(xs) <==> 1 <= k <= |xs|
    ensures forall k | 0 <= k < |xs| :: Numbered(xs)[k + 1] == xs[k]
    decreases |xs|
  {
    if xs != [] {
      var init := xs[..|xs| - 1];
      NumberedSpec(init);
      forall k | 0 <= k < |xs| ensures k + 1 in Numbered(xs) && Numbered(xs)[k + 1] == xs[k] {
        if k < |init| {
          assert init[k] == xs[k];
        }
      }
    }
  }

  /** One insert statement: `rows` tuples of `width` placeholders each, and the
      parameters bound to it by index. */
  datatype Statement<P> = Statement(rows: nat, width: nat, params: map<int, P>)

  /** The statement `executeBulkInsert` issues for one batch. */
  function StatementFor<T, P>(batch: seq<T>, width: nat, mapper: T -> seq<P>): Statement<P> {
    Statement(|batch|, width, Numbered(Args(batch, mapper)))
  }

  /** When every record yields `width` arguments, the batch binds |batch|*width
      parameters. */
  lemma {:induction false} ArgsLength<T, P>(batch: seq<T>, mapper: T -> seq<P>, width: nat)
    requires forall j | 0 <= j < |batch| :: |mapper(batch[j])| == width
    ensures |Args(batch, mapper)| == |batch| * width
    decreases |batch|
  {
    if batch != [] {
      var n := |batch|;
      ArgsLength(batch[..n - 1], mapper, width);
      MulSucc(n - 1, width);
    }
  }

  /** ... and argument a of record j sits at position j*width + a. */
  lemma {:induction false} ArgsAt<T, P>(batch: seq<T>, mapper: T -> seq<P>, width: nat, j: int, a: int)
    requires forall j | 0 <= j < |batch| :: |mapper(batch[j])| == width
    requires 0 <= j < |batch| && 0 <= a < width
    ensures j * width + a < |Args(batch, mapper)|
    ensures Args(batch, mapper)[j * width + a] == mapper(batch[j])[a]
    decreases |batch|
  {
    var n := |batch|;
    var init := batch[..n - 1];
    assert Args(batch, mapper) == Args(init, mapper) + mapper(batch[n - 1]);
    if j < n - 1 {
      assert init[j] == batch[j];
      ArgsAt(init, mapper, width, j, a);
    } else {
      ArgsLength(init, mapper, width);
      assert j * width + a == |Args(init, mapper)| + a;
    }
  }

  /** The statement for a batch of records of `width` arguments each has |batch|
      tuples and binds exactly the indices 1 .. |batch|*width. */
  lemma StatementLayout<T, P>(batch: seq<T>, width: nat, mapper: T -> seq<P>)
    requires forall j | 0 <= j < |batch| :: |mapper(batch[j])| == width
    ensures StatementFor(batch, width, mapper).rows == |batch|
    ensures forall k :: k in StatementFor(batch, width, mapper).params <==> 1 <= k <= |batch| * width
  {
    ArgsLength(batch, mapper, width);
    NumberedSpec(Args(batch, mapper));
  }

  /** In that statement argument a of record j is bound at index j*width + a + 1:
      the records are bound in order, each to its own run of `width` indices. */
  lemma StatementParam<T, P>(batch: seq<T>, width: nat, mapper: T -> seq<P>, j: int, a: int)
    requires forall j | 0 <= j < |batch| :: |mapper(batch[j])| == width
    requires 0 <= j < |batch| && 0 <= a < width
    ensures j * width + a + 1 in StatementFor(batch, width, mapper).params
    ensures StatementFor(batch, width, mapper).params[j * width + a + 1] == mapper(batch[j])[a]
  {
    var xs := Args(batch, mapper);
    ArgsAt(batch, mapper, width, j, a);
    var k := j * width + a;
    assert k < |xs| && xs[k] == mapper(batch[j])[a];
    BindAt(xs, k, mapper(batch[j])[a]);
  }

  lemma BindAt<P>(xs: seq<P>, k: int, x: P)
    requires 0 <= k < |xs| && xs[k] == x
    ensures k + 1 in Numbered(xs) && Numbered(xs)[k + 1] == x
  {
    NumberedSpec(xs);
  }

  /** Binds the arguments of a batch with a running parameter index starting at 1. */
  method Bind<T, P>(batch: seq<T>, mapper: T -> seq<P>) returns (params: map<int, P>)
    ensures params == Numbered(Args(batch, mapper))
  {
    params := map[];
    var paramIndex := 1;
    for j := 0 to |batch|
      invariant paramIndex == |Args(batch[..j], mapper)| + 1
      invariant params == Numbered(Args(batch[..j], mapper))
    {
      var args := mapper(batch[j]);
      ghost var before := Args(batch[..j], mapper);
      assert before + args[..0] == before;
      for a := 0 to |args|
        invariant paramIndex == |before| + a + 1
        invariant params == Numbered(before + args[..a])
      {
        ghost var done := before + args[..a + 1];
        assert done[..|done| - 1] == before + args[..a];
        params := params[paramIndex := args[a]];
        paramIndex := paramIndex + 1;
      }
      assert batch[..j + 1][..j] == batch[..j];
      assert args[..|args|] == args;
    }
    assert batch[..|batch|] == batch;
  }

  /** The batches from position i on: the slice up to i+size, then the rest. */
  lemma BatchesStep<T>(records: seq<T>, size: int, i: int)
    requires size >= 1 && 0 <= i < |records|
    ensures Batches(records[i..], size)
      == [records[i..Smaller(i + size, |records|)]] + Batches(records[Smaller(i + size, |records|)..], size)
  {
    var end := Smaller(size, |records| - i);
    assert records[i..][..end] == records[i..Smaller(i + size, |records|)];
    assert records[i..][end..] == records[Smaller(i + size, |records|)..];
  }

  /** The batches issued so far, followed by the batch at i, leave the batches from
      the next start on. */
  lemma BatchesDone<T>(records: seq<T>, size: int, i: int, done: seq<seq<T>>)
    requires size >= 1 && 0 <= i < |records|
    requires done + Batches(records[i..], size) == Batches(records, size)
    ensures var end := Smaller(i + size, |records|);
      (done + [records[i..end]]) + Batches(records[end..], size) == Batches(records, size)
  {
    BatchesStep(records, size, i);
    var end := Smaller(i + size, |records|);
    assert (done + [records[i..end]]) + Batches(records[end..], size) == done + ([records[i..end]] + Batches(records[end..], size));
  }

  /** The loop state of ExecuteBulkInsert before the batch starting at i: the
      statements issued so far are those of the batches `done`, and the batches of the
      remaining records complete them. */
  ghost predicate Issued<T, P>(records: seq<T>, size: int, width: nat, mapper: T -> seq<P>,
                               i: int, done: seq<seq<T>>, stmts: seq<Statement<P>>)
  {
    && size >= 1 && 0 <= i
    && done + Batches(records[Smaller(i, |records|)..], size) == Batches(records, size)
    && |stmts| == |done|
    && forall k | 0 <= k < |stmts| :: stmts[k] == StatementFor(done[k], width, mapper)
  }

  /** Issuing the statement of the batch at i moves the loop state to i + size. */
  lemma IssueNext<T, P>(records: seq<T>, size: int, width: nat, mapper: T -> seq<P>,
                        i: int, done: seq<seq<T>>, stmts: seq<Statement<P>>)
    requires Issued(records, size, width, mapper, i, done, stmts) && i < |records|
    ensures var batch := records[i..Smaller(i + size, |records|)];
      Issued(records, size, width, mapper, i + size, done + [batch], stmts + [StatementFor(batch, width, mapper)])
  {
    assert Smaller(i, |records|) == i;
    BatchesDone(records, size, i, done);
    var end := Smaller(i + size, |records|);
    assert Smaller(i + size, |records|) == end;
  }

  /** Once the index passes the last record, a statement was issued for every batch. */
  lemma IssuedAll<T, P>(records: seq<T>, size: int, width: nat, mapper: T -> seq<P>,
                        i: int, done: seq<seq<T>>, stmts: seq<Statement<P>>)
    requires Issued(records, size, width, mapper, i, done, stmts) && i >= |records|
    ensures |stmts| == |Batches(records, size)|
    ensures forall k | 0 <= k < |stmts| :: stmts[k] == StatementFor(Batches(records, size)[k], width, mapper)
  {
    assert records[Smaller(i, |records|)..] == [];
    assert done == Batches(records, size);
  }

  /** Inserts the records in statements of BatchSize(width) records each: no statement
      for no records, and otherwise one statement per batch, in order. */
  method ExecuteBulkInsert<T, P>(width: nat, records: seq<T>, mapper: T -> seq<P>) returns (stmts: seq<Statement<P>>)
    requires width >= 1
    ensures records == [] ==> stmts == []
    ensures var batches := Batches(records, BatchSize(width));
      && |stmts| == |batches|
      && forall k | 0 <= k < |stmts| :: stmts[k] == StatementFor(batches[k], width, mapper)
  {
    stmts := [];
    if records == [] {
      return;
    }
    var size := BatchSize(width);
    var total := |records|;
    ghost var done: seq<seq<T>> := [];
    var i := 0;
    assert records[Smaller(i, total)..] == records;
    while i < total
      invariant Issued(records, size, width, mapper, i, done, stmts)
      decreases total - i
    {
      var end := Smaller(i + size, total);
      var batch := records[i..end];
      var params := Bind(batch, mapper);
      IssueNext(records, size, width, mapper, i, done, stmts);
      stmts := stmts + [Statement(|batch|, width, params)];
      done := done + [batch];
      i := i + size;
    }
    IssuedAll(records, size, width, mapper, i, done, stmts);
  }

  /** A list without repeated elements. */
  predicate NoDup<X(==)>(xs: seq<X>) {
    forall i, j | 0 <= i < j < |xs| :: xs[i] != xs[j]
  }

  /** `distinct()` on a stream: the first occurrence of each element, in order. */
  function Distinct<X(==)>(xs: seq<X>): seq<X>
    decreases |xs|
  {
    if xs == [] then []
    else
      var d := Distinct(xs[..|xs| - 1]);
      if xs[|xs| - 1] in d then d else d + [xs[|xs| - 1]]
  }

  /** `distinct()` keeps every element and repeats none. */
  lemma {:induction false} DistinctSpec<X>(xs: seq<X>)
    ensures forall x :: x in Distinct(xs) <==> x in xs
    ensures NoDup(Distinct(xs))
    decreases |xs|
  {
    if xs != [] {
      var init := xs[..|xs| - 1];
      DistinctSpec(init);
      assert xs == init + [xs[|xs| - 1]];
    }
  }

  /** The items of one record paired with its owner's id, once each, as
      `(item, owner)`. */
  function Block(owner: int, items: Option<seq<int>>): seq<(int, int)> {
    if items.Some? && |items.value| > 0 then
      var d := Distinct(items.value);
      seq(|d|, i requires 0 <= i < |d| => (d[i], owner))
    else []
  }

  /** The blocks of all records, record after record. */
  function Fan(recs: seq<(int, Option<seq<int>>)>): seq<(int, int)>
    decreases |recs|
  {
    if recs == [] then [] else Block(recs[0].0, recs[0].1) + Fan(recs[1..])
  }

  /** Record i lists item x. */
  predicate Lists(recs: seq<(int, Option<seq<int>>)>, i: int, x: int)
    requires 0 <= i < |recs|
  {
    recs[i].1.Some? && x in recs[i].1.value
  }

  /** The pair (x, o) is produced exactly when a record owned by o lists x. */
  lemma {:induction false} FanMembers(recs: seq<(int, Option<seq<int>>)>, x: int, o: int)
    ensures (x, o) in Fan(recs) <==> exists i | 0 <= i < |recs| :: recs[i].0 == o && Lists(recs, i, x)
    decreases |recs|
  {
    if recs != [] {
      FanMembers(recs[1..], x, o);
      var items := recs[0].1;
      if items.Some? {
        DistinctSpec(items.value);
      }
      if (x, o) in Fan(recs[1..]) {
        var i :| 0 <= i < |recs[1..]| && recs[1..][i].0 == o && Lists(recs[1..], i, x);
        assert recs[i + 1].0 == o && Lists(recs, i + 1, x);
      }
      if exists i | 0 <= i < |recs| :: recs[i].0 == o && Lists(recs, i, x) {
        var i :| 0 <= i < |recs| && recs[i].0 == o && Lists(recs, i, x);
        if i > 0 {
          assert recs[1..][i - 1].0 == o && Lists(recs[1..], i - 1, x);
        } else {
          var d := Distinct(items.value);
          var k :| 0 <= k < |d| && d[k] == x;
          assert Block(recs[0].0, items)[k] == (x, o);
        }
      }
    }
  }

  /** No record yields a pair twice. */
  lemma BlockNoDup(owner: int, items: Option<seq<int>>)
    ensures NoDup(Block(owner, items))
  {
    if items.Some? {
      DistinctSpec(items.value);
    }
  }

  lemma NoDupAppend<X>(a: seq<X>, b: seq<X>)
    requires NoDup(a) && NoDup(b)
    requires forall i | 0 <= i < |a| :: a[i] !in b
    ensures NoDup(a + b)
  {
  }

  /** When no two records share an owner, no pair is produced twice. */
  lemma {:induction false} FanNoDup(recs: seq<(int, Option<seq<int>>)>)
    requires forall i, j | 0 <= i < j < |recs| :: recs[i].0 != recs[j].0
    ensures NoDup(Fan(recs))
    decreases |recs|
  {
    if recs != [] {
      var head := Block(recs[0].0, recs[0].1);
      var rest := recs[1..];
      FanNoDup(rest);
      BlockNoDup(recs[0].0, recs[0].1);
      forall i | 0 <= i < |head| ensures head[i] !in Fan(rest) {
        FanMembers(rest, head[i].0, head[i].1);
      }
      NoDupAppend(head, Fan(rest));
    }
  }

  /** The fields of an imported user record the follow relation uses. */
  datatype UserRecord = UserRecord(authorId: int, followingUsers: Option<seq<int>>)

  /** The fields of an imported review record the like relation uses. */
  datatype ReviewRecord = ReviewRecord(reviewId: int, likes: Option<seq<int>>)

  /** The fields of an imported recipe record the ingredient relations use. */
  datatype RecipeRecord = RecipeRecord(recipeId: int, ingredientParts: Option<seq<string>>)

  /** The follows rows, as (blogger, follower): each user's following list once each. */
  function FollowArgs(users: seq<UserRecord>): seq<(int, int)> {
    Fan(seq(|users|, i requires 0 <= i < |users| => (users[i].authorId, users[i].followingUsers)))
  }

  /** The likes_review rows, as (user, review): each review's likes once each. */
  function LikeArgs(reviews: seq<ReviewRecord>): seq<(int, int)> {
    Fan(seq(|reviews|, i requires 0 <= i < |reviews| => (reviews[i].reviewId, reviews[i].likes)))
  }

  /** (b, f) is a follows row exactly when user f's record lists b among the users
      it follows; with distinct user ids no row is repeated. */
  lemma FollowArgsSpec(users: seq<UserRecord>, b: int, f: int)
    ensures (b, f) in FollowArgs(users) <==>
      exists i | 0 <= i < |users| :: users[i].authorId == f && users[i].followingUsers.Some? && b in users[i].followingUsers.value
    ensures (forall i, j | 0 <= i < j < |users| :: users[i].authorId != users[j].authorId) ==> NoDup(FollowArgs(users))
  {
    var recs := seq(|users|, i requires 0 <= i < |users| => (users[i].authorId, users[i].followingUsers));
    FanMembers(recs, b, f);
    if exists i | 0 <= i < |recs| :: recs[i].0 == f && Lists(recs, i, b) {
      var i :| 0 <= i < |recs| && recs[i].0 == f && Lists(recs, i, b);
      assert users[i].authorId == f;
    }
    if exists i | 0 <= i < |users| :: users[i].authorId == f && users[i].followingUsers.Some? && b in users[i].followingUsers.value {
      var i :| 0 <= i < |users| && users[i].authorId == f && users[i].followingUsers.Some? && b in users[i].followingUsers.value;
      assert recs[i].0 == f && Lists(recs, i, b);
    }
    if forall i, j | 0 <= i < j < |users| :: users[i].authorId != users[j].authorId {
      FanNoDup(recs);
    }
  }

  /** (u, r) is a likes_review row exactly when review r's record lists user u among
      its likes; with distinct review ids no row is repeated. */
  lemma LikeArgsSpec(reviews: seq<ReviewRecord>, u: int, r: int)
    ensures (u, r) in LikeArgs(reviews) <==>
      exists i | 0 <= i < |reviews| :: reviews[i].reviewId == r && reviews[i].likes.Some? && u in reviews[i].likes.value
    ensures (forall i, j | 0 <= i < j < |reviews| :: reviews[i].reviewId != reviews[j].reviewId) ==> NoDup(LikeArgs(reviews))
  {
    var recs := seq(|reviews|, i requires 0 <= i < |reviews| => (reviews[i].reviewId, reviews[i].likes));
    FanMembers(recs, u, r);
    if exists i | 0 <= i < |recs| :: recs[i].0 == r && Lists(recs, i, u) {
      var i :| 0 <= i < |recs| && recs[i].0 == r && Lists(recs, i, u);
      assert reviews[i].reviewId == r;
    }
    if exists i | 0 <= i < |reviews| :: reviews[i].reviewId == r && reviews[i].likes.Some? && u in reviews[i].likes.value {
      var i :| 0 <= i < |reviews| && reviews[i].reviewId == r && reviews[i].likes.Some? && u in reviews[i].likes.value;
      assert recs[i].0 == r && Lists(recs, i, u);
    }
    if forall i, j | 0 <= i < j < |reviews| :: reviews[i].reviewId != reviews[j].reviewId {
      FanNoDup(recs);
    }
  }

  /** The ingredient names of a record, none for a null list. */
  function PartsOf(r: RecipeRecord): set<string> {
    if r.ingredientParts.Some? then set n | n in r.ingredientParts.value else {}
  }

  /** The names collected into the ingredient table. */
  function Vocabulary(recipes: seq<RecipeRecord>): set<string>
    decreases |recipes|
  {
    if recipes == [] then {} else PartsOf(recipes[0]) + Vocabulary(recipes[1..])
  }

  /** The vocabulary holds exactly the names some record lists. */
  lemma {:induction false} VocabularySpec(recipes: seq<RecipeRecord>, n: string)
    ensures n in Vocabulary(recipes) <==> exists i | 0 <= i < |recipes| :: n in PartsOf(recipes[i])
    decreases |recipes|
  {
    if recipes != [] {
      VocabularySpec(recipes[1..], n);
      if exists i | 0 <= i < |recipes| :: n in PartsOf(recipes[i]) {
        var i :| 0 <= i < |recipes| && n in PartsOf(recipes[i]);
        if i > 0 {
          assert recipes[1..][i - 1] == recipes[i];
        }
      }
      if n in Vocabulary(recipes[1..]) {
        var i :| 0 <= i < |recipes[1..]| && n in PartsOf(recipes[1..][i]);
        assert recipes[i + 1] == recipes[1..][i];
      }
    }
  }

  /** The ingredient rows as serial ids hand them out to a fresh table: the k-th
      inserted name gets id k+1. */
  function IngredientRows(names: seq<string>): seq<(int, string)> {
    seq(|names|, k requires 0 <= k < |names| => (k + 1, names[k]))
  }

  /** Reads the ingredient rows into a name-to-id map, a later row replacing an
      earlier one with the same name. */
  method LoadIngredientMap(rows: seq<(int, string)>) returns (m: map<string, int>)
    ensures forall n :: n in m <==> exists k | 0 <= k < |rows| :: rows[k].1 == n
    ensures forall k | 0 <= k < |rows| && (forall l | k < l < |rows| :: rows[l].1 != rows[k].1) :: m[rows[k].1] == rows[k].0
  {
    m := map[];
    for k := 0 to |rows|
      invariant forall n :: n in m <==> exists l | 0 <= l < k :: rows[l].1 == n
      invariant forall l | 0 <= l < k && (forall l' | l < l' < k :: rows[l'].1 != rows[l].1) :: m[rows[l].1] == rows[l].0
    {
      m := m[rows[k].1 := rows[k].0];
    }
  }

  /** With the names of the vocabulary inserted once each, the map holds every name of
      the vocabulary and gives the k-th inserted name the id k+1, so no two names share
      an id. */
  method LoadVocabulary(recipes: seq<RecipeRecord>, names: seq<string>) returns (m: map<string, int>)
    requires NoDup(names) && (set n | n in names) == Vocabulary(recipes)
    ensures m.Keys == Vocabulary(recipes)
    ensures forall k | 0 <= k < |names| :: m[names[k]] == k + 1
    ensures forall a, b | a in m && b in m && a != b :: m[a] != m[b]
  {
    var rows := IngredientRows(names);
    RowsUnique(names);
    m := LoadIngredientMap(rows);
    LoadedIds(names, m);
    forall n | n in m ensures n in Vocabulary(recipes) {
      var k :| 0 <= k < |rows| && rows[k].1 == n;
      assert n in names;
    }
    forall n | n in Vocabulary(recipes) ensures n in m {
      assert n in set n | n in names;
      var k :| 0 <= k < |names| && names[k] == n;
      assert names[k] in m;
    }
  }

  /** Without repeated names no row's name comes back in a later row. */
  lemma RowsUnique(names: seq<string>)
    requires NoDup(names)
    ensures var rows := IngredientRows(names);
      forall k | 0 <= k < |rows| :: rows[k].1 == names[k] && forall l | k < l < |rows| :: rows[l].1 != rows[k].1
  {
  }

  /** The map loaded from those rows sends the k-th name to k+1 and is injective. */
  lemma LoadedIds(names: seq<string>, m: map<string, int>)
    requires NoDup(names)
    requires var rows := IngredientRows(names);
      && (forall n :: n in m <==> exists k | 0 <= k < |rows| :: rows[k].1 == n)
      && (forall k | 0 <= k < |rows| && (forall l | k < l < |rows| :: rows[l].1 != rows[k].1) :: m[rows[k].1] == rows[k].0)
    ensures forall k | 0 <= k < |names| :: names[k] in m && m[names[k]] == k + 1
    ensures forall n :: n in m <==> n in names
    ensures forall a, b | a in m && b in m && a != b :: m[a] != m[b]
  {
    var rows := IngredientRows(names);
    RowsUnique(names);
    forall k | 0 <= k < |names| ensures names[k] in m && m[names[k]] == k + 1 {
      assert rows[k] == (k + 1, names[k]);
    }
    forall n | n in m ensures n in names {
      var k :| 0 <= k < |rows| && rows[k].1 == n;
    }
    forall a, b | a in m && b in m && a != b ensures m[a] != m[b] {
      var i :| 0 <= i < |names| && names[i] == a;
      var j :| 0 <= j < |names| && names[j] == b;
    }
  }

  /** The ingredient ids of the names listed once each, names missing from the map
      dropped. */
  function Known(names: seq<string>, m: map<string, int>): seq<int>
    decreases |names|
  {
    if names == [] then []
    else (if names[0] in m then [m[names[0]]] else []) + Known(names[1..], m)
  }

  /** The has_ingredient rows of one recipe record, as (recipe, ingredient). */
  function RecipeLinks(r: RecipeRecord, m: map<string, int>): seq<(int, int)> {
    if r.ingredientParts.Some? && |r.ingredientParts.value| > 0 then
      var ids := Known(Distinct(r.ingredientParts.value), m);
      seq(|ids|, i requires 0 <= i < |ids| => (r.recipeId, ids[i]))
    else []
  }

  /** The has_ingredient rows of all recipe records, record after record. */
  function HasArgs(recipes: seq<RecipeRecord>, m: map<string, int>): seq<(int, int)>
    decreases |recipes|
  {
    if recipes == [] then [] else RecipeLinks(recipes[0], m) + HasArgs(recipes[1..], m)
  }

  lemma {:induction false} KnownSpec(names: seq<string>, m: map<string, int>, id: int)
    ensures id in Known(names, m) <==> exists n | n in names :: n in m && m[n] == id
    decreases |names|
  {
    if names != [] {
      KnownSpec(names[1..], m, id);
      if exists n | n in names :: n in m && m[n] == id {
        var n :| n in names && n in m && m[n] == id;
        if n != names[0] {
          assert n in names[1..];
        }
      }
    }
  }

  lemma {:induction false} KnownNoDup(names: seq<string>, m: map<string, int>)
    requires NoDup(names)
    requires forall a, b | a in m && b in m && a != b :: m[a] != m[b]
    ensures NoDup(Known(names, m))
    decreases |names|
  {
    if names != [] {
      KnownNoDup(names[1..], m);
      if names[0] in m {
        var rest := Known(names[1..], m);
        forall i | 0 <= i < |rest| ensures rest[i] != m[names[0]] {
          KnownSpec(names[1..], m, rest[i]);
          var n :| n in names[1..] && n in m && m[n] == rest[i];
        }
        NoDupAppend([m[names[0]]], rest);
      }
    }
  }

  /** The rows one recipe record yields: its names that the map knows, each once. */
  lemma RecipeLinksSpec(r: RecipeRecord, m: map<string, int>, id: int)
    ensures (r.recipeId, id) in RecipeLinks(r, m) <==> exists n | n in PartsOf(r) :: n in m && m[n] == id
    ensures (forall a, b | a in m && b in m && a != b :: m[a] != m[b]) ==> NoDup(RecipeLinks(r, m))
  {
    if r.ingredientParts.Some? && |r.ingredientParts.value| > 0 {
      var d := Distinct(r.ingredientParts.value);
      DistinctSpec(r.ingredientParts.value);
      KnownSpec(d, m, id);
      var ids := Known(d, m);
      if id in ids {
        var k :| 0 <= k < |ids| && ids[k] == id;
        assert RecipeLinks(r, m)[k] == (r.recipeId, id);
      }
      if forall a, b | a in m && b in m && a != b :: m[a] != m[b] {
        KnownNoDup(d, m);
      }
    }
  }

  /** Every row of a recipe record names that recipe. */
  lemma RecipeLinksOwner(r: RecipeRecord, m: map<string, int>)
    ensures forall p | p in RecipeLinks(r, m) :: p.0 == r.recipeId
  {
  }

  /** (rid, id) is a has_ingredient row exactly when a record of recipe rid lists a
      name the map sends to id; names missing from the map give no row. */
  lemma {:induction false} HasArgsSpec(recipes: seq<RecipeRecord>, m: map<string, int>, rid: int, id: int)
    ensures (rid, id) in HasArgs(recipes, m) <==>
      exists i | 0 <= i < |recipes| :: recipes[i].recipeId == rid && exists n | n in PartsOf(recipes[i]) :: n in m && m[n] == id
    decreases |recipes|
  {
    if recipes != [] {
      HasArgsSpec(recipes[1..], m, rid, id);
      RecipeLinksOwner(recipes[0], m);
      if recipes[0].recipeId == rid {
        RecipeLinksSpec(recipes[0], m, id);
      }
      if exists i | 0 <= i < |recipes| :: recipes[i].recipeId == rid && exists n | n in PartsOf(recipes[i]) :: n in m && m[n] == id {
        var i :| 0 <= i < |recipes| && recipes[i].recipeId == rid && exists n | n in PartsOf(recipes[i]) :: n in m && m[n] == id;
        if i > 0 {
          assert recipes[1..][i - 1] == recipes[i];
        }
      }
      if (rid, id) in HasArgs(recipes[1..], m) {
        var i :| 0 <= i < |recipes[1..]| && recipes[1..][i].recipeId == rid && exists n | n in PartsOf(recipes[1..][i]) :: n in m && m[n] == id;
        assert recipes[i + 1] == recipes[1..][i];
      }
    }
  }

  /** With the map loaded from the whole vocabulary, no listed name is dropped: every
      name a recipe record lists is linked to that recipe. */
  lemma EveryNameLinked(recipes: seq<RecipeRecord>, m: map<string, int>, i: int, n: string)
    requires Vocabulary(recipes) <= m.Keys
    requires 0 <= i < |recipes| && n in PartsOf(recipes[i])
    ensures n in m && (recipes[i].recipeId, m[n]) in HasArgs(recipes, m)
  {
    VocabularySpec(recipes, n);
    HasArgsSpec(recipes, m, recipes[i].recipeId, m[n]);
  }
}
