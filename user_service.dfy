/** Accounts: registration, login, soft deletion, the follow relation with its
    counters, profile updates, the feed of followed authors' recipes and the user with
    the highest follower ratio. */
module UserService {
  import opened Wrappers
  import opened Sets
  import opened Ordering
  import opened StoreModel

  // ---------------------------------------------------------------------------
  // Login

  /** The credentials name a live account and carry its non-empty password. */
  predicate Authentic(users: map<int, User>, auth: AuthInfo) {
    && auth.password != ""
    && auth.authorId in users
    && !users[auth.authorId].deleted
    && users[auth.authorId].password == auth.password
  }

  /** `login`: the account id, or -1 when the credentials are rejected. */
  function Login(users: map<int, User>, auth: AuthInfo): (id: int)
    ensures id != -1 ==> id == auth.authorId && id in users && !users[id].deleted
    ensures id != -1 ==> auth.password != "" && users[id].password == auth.password
    ensures Authentic(users, auth) && auth.authorId != -1 ==> id == auth.authorId
  {
    if Authentic(users, auth) then auth.authorId else -1
  }

  // ---------------------------------------------------------------------------
  // Registration

  datatype Gender = Male | Female | Unknown

  /** A registration request; `gender` is None when the request carries none. */
  datatype RegisterRequest = RegisterRequest(name: string, gender: Option<Gender>, birthday: string, password: string)

  /** Some account, live or deleted, already has this name. */
  predicate NameTaken(users: map<int, User>, name: string) {
    exists u | u in users :: users[u].name == name
  }

  /** The request passes every check `register` makes; `age` is the age computed
      from the birthday, None when the birthday matches none of the accepted
      patterns. */
  predicate Registrable(users: map<int, User>, req: RegisterRequest, age: Option<int>) {
    && req.name != "" && req.password != ""
    && req.gender.Some? && req.gender.value != Unknown
    && req.birthday != ""
    && age.Some? && age.value > 0
    && !NameTaken(users, req.name)
  }

  /** The row `register` inserts. */
  function NewUser(req: RegisterRequest, age: int): (u: User)
    requires req.gender.Some? && req.gender.value != Unknown
    ensures AllowedGender(u.gender) && !u.deleted && u.following == 0 && u.followers == 0
    ensures u.name == req.name && u.password == req.password && u.age == age
  {
    User(req.name, if req.gender.value == Male then "Male" else "Female", age, 0, 0, req.password, false)
  }

  /** A freshly registered account can log in with its password. */
  lemma RegisteredCanLogin(users: map<int, User>, req: RegisterRequest, age: int)
    requires req.gender.Some? && req.gender.value != Unknown && req.password != ""
    requires NextId(users.Keys) != -1
    ensures var id := NextId(users.Keys);
      Login(users[id := NewUser(req, age)], AuthInfo(id, req.password)) == id
  {
  }

  /** No follow pair touches an id outside the users table. */
  lemma NoEdgesOfStranger(users: map<int, User>, follows: set<(int, int)>, x: int)
    requires FollowsWellFormed(users, follows) && x !in users
    ensures Incoming(follows, x) == 0 && Outgoing(follows, x) == 0
  {
    assert (set e | e in follows && e.1 == x) == {};
    assert (set e | e in follows && e.0 == x) == {};
  }

  method Register(st: Store, req: RegisterRequest, age: Option<int>) returns (id: int)
    requires st.Valid()
    modifies st
    ensures st.Valid()
    ensures !Registrable(old(st.users), req, age) ==> id == -1 && st.Snapshot() == old(st.Snapshot())
    ensures Registrable(old(st.users), req, age) ==>
      && id == NextId(old(st.users).Keys)
      && st.Snapshot() == old(st.Snapshot()).(users := old(st.users)[id := NewUser(req, age.value)])
    ensures old(CountersConsistent(st.users, st.follows)) ==> CountersConsistent(st.users, st.follows)
  {
    if req.name == "" || req.password == "" {
      return -1;
    }
    if req.gender.None? || req.gender.value == Unknown {
      return -1;
    }
    if req.birthday == "" {
      return -1;
    }
    if age.None? || age.value <= 0 {
      return -1;
    }
    if NameTaken(st.users, req.name) {
      return -1;
    }
    id := NextId(st.users.Keys);
    NoEdgesOfStranger(st.users, st.follows, id);
    st.users := st.users[id := NewUser(req, age.value)];
  }

  // ---------------------------------------------------------------------------
  // Follow

  /** What `follow` does to users and follows when `x` toggles following `y`: the
      pair is removed when present and added otherwise, and both counters move
      with it. */
  function ToggleFollow(users: map<int, User>, follows: set<(int, int)>, x: int, y: int): (r: (map<int, User>, set<(int, int)>))
    requires x in users && y in users && x != y
    ensures r.0.Keys == users.Keys
    ensures (x, y) in r.1 <==> (x, y) !in follows
    ensures forall e | e != (x, y) :: e in r.1 <==> e in follows
    ensures forall u | u in users && u != x && u != y :: r.0[u] == users[u]
  {
    var delta := if (x, y) in follows then -1 else 1;
    (users[x := users[x].(following := users[x].following + delta)][y := users[y].(followers := users[y].followers + delta)],
     if (x, y) in follows then follows - {(x, y)} else follows + {(x, y)})
  }

  /** Following twice restores both tables. */
  lemma ToggleTwice(users: map<int, User>, follows: set<(int, int)>, x: int, y: int)
    requires x in users && y in users && x != y
    ensures var (u1, f1) := ToggleFollow(users, follows, x, y);
      ToggleFollow(u1, f1, x, y) == (users, follows)
  {
    var (u1, f1) := ToggleFollow(users, follows, x, y);
    var (u2, f2) := ToggleFollow(u1, f1, x, y);
    assert f2 == follows;
    assert u2 == users;
  }

  /** The counters still agree with the relation after a toggle. */
  lemma ToggleKeepsCounters(users: map<int, User>, follows: set<(int, int)>, x: int, y: int)
    requires x in users && y in users && x != y
    requires CountersConsistent(users, follows)
    ensures var (u1, f1) := ToggleFollow(users, follows, x, y); CountersConsistent(u1, f1)
  {
    var (u1, f1) := ToggleFollow(users, follows, x, y);
    var e := (x, y);
    forall u | u in u1
      ensures u1[u].followers == Incoming(f1, u) && u1[u].following == Outgoing(f1, u)
    {
      if e in follows {
        IncomingDelete(follows, e, u);
        OutgoingDelete(follows, e, u);
      } else {
        IncomingInsert(follows, e, u);
        OutgoingInsert(follows, e, u);
      }
    }
  }

  lemma ToggleKeepsIntact(d: Db, x: int, y: int)
    requires Intact(d) && x in d.users && y in d.users && x != y
    requires !d.users[x].deleted && !d.users[y].deleted
    ensures var (u1, f1) := ToggleFollow(d.users, d.follows, x, y); Intact(d.(users := u1, follows := f1))
  {
  }

  method Follow(st: Store, auth: AuthInfo, followee: int) returns (r: Result<bool>)
    requires st.Valid()
    modifies st
    ensures st.Valid()
    ensures var me := Login(old(st.users), auth);
      if me == -1 || me == followee then
        r == Err(SecurityError) && st.Snapshot() == old(st.Snapshot())
      else if followee !in old(st.users) || old(st.users)[followee].deleted then
        r == Ok(false) && st.Snapshot() == old(st.Snapshot())
      else
        && r == Ok((me, followee) !in old(st.follows))
        && (st.users, st.follows) == ToggleFollow(old(st.users), old(st.follows), me, followee)
        && st.Snapshot() == old(st.Snapshot()).(users := st.users, follows := st.follows)
    ensures old(CountersConsistent(st.users, st.follows)) ==> CountersConsistent(st.users, st.follows)
  {
    var me := Login(st.users, auth);
    if me == -1 {
      return Err(SecurityError);
    }
    if me == followee {
      return Err(SecurityError);
    }
    if followee !in st.users || st.users[followee].deleted {
      return Ok(false);
    }
    ghost var d0 := st.Snapshot();
    if CountersConsistent(st.users, st.follows) {
      ToggleKeepsCounters(st.users, st.follows, me, followee);
    }
    ToggleKeepsIntact(d0, me, followee);
    r := Ok((me, followee) !in st.follows);
    ToggleRows(st, me, followee);
  }

  /** The statements of `follow` once the checks pass: delete or insert the pair,
      then move the follower's `following` and the followee's `followers`. */
  method ToggleRows(st: Store, x: int, y: int)
    requires x in st.users && y in st.users && x != y
    modifies st
    ensures (st.users, st.follows) == ToggleFollow(old(st.users), old(st.follows), x, y)
    ensures st.Snapshot() == old(st.Snapshot()).(users := st.users, follows := st.follows)
  {
    if (x, y) in st.follows {
      st.follows := st.follows - {(x, y)};
      st.users := st.users[x := st.users[x].(following := st.users[x].following - 1)];
      st.users := st.users[y := st.users[y].(followers := st.users[y].followers - 1)];
    } else {
      st.follows := st.follows + {(x, y)};
      st.users := st.users[x := st.users[x].(following := st.users[x].following + 1)];
      st.users := st.users[y := st.users[y].(followers := st.users[y].followers + 1)];
    }
  }

  // ---------------------------------------------------------------------------
  // Account deletion

  /** The follows table once every pair involving `x` is deleted. */
  function Unfollowed(follows: set<(int, int)>, x: int): (f: set<(int, int)>)
    ensures f <= follows
    ensures forall e | e in follows :: e in f <==> e.0 != x && e.1 != x
  {
    set e | e in follows && e.0 != x && e.1 != x
  }

  /** `followers = followers - 1` for every account in `s`. */
  function LoseFollower(users: map<int, User>, s: set<int>): (r: map<int, User>)
    ensures r.Keys == users.Keys
    ensures forall u | u in users ::
      (r[u] == if u in s then users[u].(followers := users[u].followers - 1) else users[u])
  {
    map u | u in users :: if u in s then users[u].(followers := users[u].followers - 1) else users[u]
  }

  /** `following = following - 1` for every account in `s`. */
  function LoseFollowing(users: map<int, User>, s: set<int>): (r: map<int, User>)
    ensures r.Keys == users.Keys
    ensures forall u | u in users ::
      (r[u] == if u in s then users[u].(following := users[u].following - 1) else users[u])
  {
    map u | u in users :: if u in s then users[u].(following := users[u].following - 1) else users[u]
  }

  /** The users table after `deleteAccount(x)`: `x` is marked deleted with both
      counters zero, each blogger `x` followed loses a follower and each follower of
      `x` follows one account fewer; nothing else changes. */
  function AfterDelete(users: map<int, User>, follows: set<(int, int)>, x: int): (r: map<int, User>)
    requires x in users
    ensures x in r && r[x].deleted && r[x].following == 0 && r[x].followers == 0
  {
    var marked := users[x := users[x].(deleted := true)];
    var r := LoseFollowing(LoseFollower(marked, Bloggers(follows, x)), Fans(follows, x));
    r[x := r[x].(following := 0, followers := 0)]
  }

  /** The deleted account is marked deleted with both counters zero; every other
      account loses one follower if `x` followed it and one followed account if it
      followed `x`, and is otherwise unchanged. */
  lemma AfterDeleteSpec(users: map<int, User>, follows: set<(int, int)>, x: int)
    requires x in users
    ensures var r := AfterDelete(users, follows, x);
      && r.Keys == users.Keys
      && r[x] == users[x].(deleted := true, following := 0, followers := 0)
      && forall u | u in users && u != x ::
        (r[u] == users[u].(followers := users[u].followers - (if (x, u) in follows then 1 else 0),
                           following := users[u].following - (if (u, x) in follows then 1 else 0)))
  {
  }

  /** Deleting the pairs of `x` takes from `u` exactly the follower `x`. */
  lemma UnfollowedIncoming(follows: set<(int, int)>, x: int, u: int)
    ensures Incoming(Unfollowed(follows, x), u) ==
      if u == x then 0 else Incoming(follows, u) - (if (x, u) in follows then 1 else 0)
  {
    var before := set e | e in follows && e.1 == u;
    var after := set e | e in Unfollowed(follows, x) && e.1 == u;
    if u == x {
      assert after == {};
    } else if (x, u) in follows {
      assert before == after + {(x, u)};
    } else {
      assert before == after;
    }
  }

  /** Deleting the pairs of `x` takes from `u` exactly the followed account `x`. */
  lemma UnfollowedOutgoing(follows: set<(int, int)>, x: int, u: int)
    ensures Outgoing(Unfollowed(follows, x), u) ==
      if u == x then 0 else Outgoing(follows, u) - (if (u, x) in follows then 1 else 0)
  {
    var before := set e | e in follows && e.0 == u;
    var after := set e | e in Unfollowed(follows, x) && e.0 == u;
    if u == x {
      assert after == {};
    } else if (u, x) in follows {
      assert before == after + {(u, x)};
    } else {
      assert before == after;
    }
  }

  /** Deleting an account leaves the counters in agreement with the relation. */
  lemma DeleteKeepsCounters(users: map<int, User>, follows: set<(int, int)>, x: int)
    requires x in users && CountersConsistent(users, follows)
    ensures CountersConsistent(AfterDelete(users, follows, x), Unfollowed(follows, x))
  {
    var u1 := AfterDelete(users, follows, x);
    var f1 := Unfollowed(follows, x);
    AfterDeleteSpec(users, follows, x);
    forall u | u in u1
      ensures u1[u].followers == Incoming(f1, u) && u1[u].following == Outgoing(f1, u)
    {
      UnfollowedIncoming(follows, x, u);
      UnfollowedOutgoing(follows, x, u);
    }
  }

  lemma DeleteKeepsIntact(d: Db, x: int)
    requires Intact(d) && x in d.users
    ensures Intact(d.(users := AfterDelete(d.users, d.follows, x), follows := Unfollowed(d.follows, x)))
  {
    AfterDeleteSpec(d.users, d.follows, x);
  }

  /** The ids of the bloggers `x` follows. */
  function Bloggers(follows: set<(int, int)>, x: int): (s: set<int>)
    ensures forall b :: b in s <==> (x, b) in follows
  {
    set e | e in follows && e.0 == x :: e.1
  }

  /** The ids of the followers of `x`. */
  function Fans(follows: set<(int, int)>, x: int): (s: set<int>)
    ensures forall f :: f in s <==> (f, x) in follows
  {
    set e | e in follows && e.1 == x :: e.0
  }

  /** The loop of `UPDATE users SET followers = followers - 1` over the listed
      accounts, run on the users table. */
  method DropFollowers(users: map<int, User>, ids: seq<int>, ghost s: set<int>) returns (r: map<int, User>)
    requires forall i, j | 0 <= i < j < |ids| :: ids[i] != ids[j]
    requires forall u :: u in ids <==> u in s
    ensures r == LoseFollower(users, s)
  {
    r := users;
    var i := 0;
    while i < |ids|
      invariant 0 <= i <= |ids|
      invariant r.Keys == users.Keys
      invariant forall u | u in users ::
        r[u] == if u in ids[..i] then users[u].(followers := users[u].followers - 1) else users[u]
    {
      var b := ids[i];
      assert b !in ids[..i];
      if b in r {
        r := r[b := r[b].(followers := r[b].followers - 1)];
      }
      assert ids[..i + 1] == ids[..i] + [b];
      i := i + 1;
    }
    assert ids[..i] == ids;
    forall u | u in r
      ensures r[u] == LoseFollower(users, s)[u]
    {
      assert u in ids <==> u in s;
    }
  }

  /** The loop of `UPDATE users SET following = following - 1` over the listed
      accounts, run on the users table. */
  method DropFollowing(users: map<int, User>, ids: seq<int>, ghost s: set<int>) returns (r: map<int, User>)
    requires forall i, j | 0 <= i < j < |ids| :: ids[i] != ids[j]
    requires forall u :: u in ids <==> u in s
    ensures r == LoseFollowing(users, s)
  {
    r := users;
    var i := 0;
    while i < |ids|
      invariant 0 <= i <= |ids|
      invariant r.Keys == users.Keys
      invariant forall u | u in users ::
        r[u] == if u in ids[..i] then users[u].(following := users[u].following - 1) else users[u]
    {
      var f := ids[i];
      assert f !in ids[..i];
      if f in r {
        r := r[f := r[f].(following := r[f].following - 1)];
      }
      assert ids[..i + 1] == ids[..i] + [f];
      i := i + 1;
    }
    assert ids[..i] == ids;
    forall u | u in r
      ensures r[u] == LoseFollowing(users, s)[u]
    {
      assert u in ids <==> u in s;
    }
  }

  method DeleteAccount(st: Store, auth: AuthInfo, userId: int) returns (r: Result<bool>)
    requires st.Valid()
    modifies st
    ensures st.Valid()
    ensures var me := Login(old(st.users), auth);
      if me == -1 || me != userId then
        r == Err(SecurityError) && st.Snapshot() == old(st.Snapshot())
      else
        && r == Ok(true)
        && st.Snapshot() == old(st.Snapshot()).(users := AfterDelete(old(st.users), old(st.follows), userId),
                                                follows := Unfollowed(old(st.follows), userId))
    ensures old(CountersConsistent(st.users, st.follows)) ==> CountersConsistent(st.users, st.follows)
    ensures r.Ok? ==> Login(st.users, auth) == -1
  {
    var me := Login(st.users, auth);
    if me == -1 {
      return Err(SecurityError);
    }
    if me != userId {
      return Err(SecurityError);
    }
    ghost var d0 := st.Snapshot();
    DeleteKeepsIntact(d0, userId);
    if CountersConsistent(d0.users, d0.follows) {
      DeleteKeepsCounters(d0.users, d0.follows, userId);
    }
    RemoveAccountRows(st, userId);
    r := Ok(true);
  }

  /** The statements of `deleteAccount` once the checks pass: mark the account
      deleted, adjust the counters of the accounts on the other end of its follow
      pairs, delete those pairs and zero its own counters. */
  method RemoveAccountRows(st: Store, x: int)
    requires x in st.users
    modifies st
    ensures st.Snapshot() == old(st.Snapshot()).(users := AfterDelete(old(st.users), old(st.follows), x),
                                                 follows := Unfollowed(old(st.follows), x))
  {
    var users := DeletedUsers(st.users, st.follows, x);
    st.users := users;
    st.follows := Unfollowed(st.follows, x);
  }

  /** The row updates of `deleteAccount` on the users table: mark `x` deleted, run the
      two decrement loops over the accounts `x` followed and the accounts following
      `x`, and zero the counters of `x`. */
  method DeletedUsers(users0: map<int, User>, follows: set<(int, int)>, x: int) returns (users: map<int, User>)
    requires x in users0
    ensures users == AfterDelete(users0, follows, x)
  {
    users := users0[x := users0[x].(deleted := true)];
    var bloggers := Listed(Bloggers(follows, x));
    users := DropFollowers(users, bloggers, Bloggers(follows, x));
    var fans := Listed(Fans(follows, x));
    users := DropFollowing(users, fans, Fans(follows, x));
    users := users[x := users[x].(following := 0, followers := 0)];
  }

  // ---------------------------------------------------------------------------
  // Lookups and profile

  /** `getById`: the stored row, deleted accounts included, or null. */
  function GetById(users: map<int, User>, id: int): (r: Option<User>)
    ensures r.Some? <==> id in users
    ensures r.Some? ==> r.value == users[id]
  {
    if id in users then Some(users[id]) else None
  }

  /** `getById` after `deleteAccount`: the account is still returned, now marked
      deleted with both counters zero and everything else as it was. */
  lemma GetByIdDeleted(users: map<int, User>, follows: set<(int, int)>, x: int)
    requires x in users
    ensures var r := GetById(AfterDelete(users, follows, x), x);
      && r.Some? && r.value.deleted && r.value.following == 0 && r.value.followers == 0
      && r.value.(deleted := users[x].deleted, following := users[x].following, followers := users[x].followers) == users[x]
  {
    AfterDeleteSpec(users, follows, x);
  }

  /** `getById` after `register`: the new id yields the inserted row and every other
      id what it yielded before. */
  lemma GetByIdRegistered(users: map<int, User>, req: RegisterRequest, age: int)
    requires req.gender.Some? && req.gender.value != Unknown
    ensures var id := NextId(users.Keys);
      var after := users[id := NewUser(req, age)];
      && GetById(after, id) == Some(NewUser(req, age))
      && forall u | u != id :: GetById(after, u) == GetById(users, u)
  {
  }

  /** The row after `updateProfile`: a non-empty gender and any given age are
      written, the rest is kept. */
  function UpdatedProfile(u: User, gender: Option<string>, age: Option<int>): (r: User)
    ensures r.gender == if gender.Some? && gender.value != "" then gender.value else u.gender
    ensures r.age == if age.Some? then age.value else u.age
    ensures r.(gender := u.gender, age := u.age) == u
  {
    var g := if gender.Some? && gender.value != "" then gender.value else u.gender;
    var a := if age.Some? then age.value else u.age;
    u.(gender := g, age := a)
  }

  method UpdateProfile(st: Store, auth: AuthInfo, gender: Option<string>, age: Option<int>) returns (r: Result<()>)
    requires st.Valid()
    modifies st
    ensures st.Valid()
    ensures var me := Login(old(st.users), auth);
      if me == -1 then
        r == Err(SecurityError) && st.Snapshot() == old(st.Snapshot())
      else if gender.Some? && gender.value != "" && !AllowedGender(gender.value) then
        r == Err(IntegrityViolation) && st.Snapshot() == old(st.Snapshot())
      else
        && r == Ok(())
        && st.Snapshot() == old(st.Snapshot()).(users := old(st.users)[me := UpdatedProfile(old(st.users)[me], gender, age)])
    ensures old(CountersConsistent(st.users, st.follows)) ==> CountersConsistent(st.users, st.follows)
  {
    var me := Login(st.users, auth);
    if me == -1 {
      return Err(SecurityError);
    }
    var writesGender := gender.Some? && gender.value != "";
    var writesAge := age.Some?;
    if !writesGender && !writesAge {
      assert UpdatedProfile(st.users[me], gender, age) == st.users[me];
      assert st.users[me := st.users[me]] == st.users;
      return Ok(());
    }
    if writesGender && !AllowedGender(gender.value) {
      // the check constraint on users.gender rejects the update
      return Err(IntegrityViolation);
    }
    st.users := st.users[me := UpdatedProfile(st.users[me], gender, age)];
    r := Ok(());
  }

  // ---------------------------------------------------------------------------
  // Feed

  datatype Page<T> = Page(items: seq<T>, page: int, size: int, total: int)

  /** Recipes whose author the user follows, in the requested category if one is
      given. */
  function FeedMatches(users: map<int, User>, follows: set<(int, int)>, recipes: map<int, Recipe>, me: int, category: Option<string>): (s: set<int>)
    ensures forall r :: r in s <==>
      && r in recipes && (me, recipes[r].author) in follows && recipes[r].author in users
      && (category.Some? && category.value != "" ==> recipes[r].category == category)
  {
    set r | r in recipes && (me, recipes[r].author) in follows && recipes[r].author in users
      && (category.Some? && category.value != "" ==> recipes[r].category == category)
  }

  /** `ORDER BY date_published DESC, recipe_id DESC`; PostgreSQL sorts nulls first
      in a descending order. */
  function FeedKeys(recipes: map<int, Recipe>, s: set<int>): (keys: map<int, Key>)
    requires s <= recipes.Keys
    ensures IdTieBreak(s, keys)
    ensures forall r | r in s ::
      (keys[r] == if recipes[r].published.None? then Key(0, 0, -r) else Key(1, -recipes[r].published.value, -r))
  {
    map r | r in s :: if recipes[r].published.None? then Key(0, 0, -r) else Key(1, -recipes[r].published.value, -r)
  }

  function ClampPage(page: int): (p: int)
    ensures p >= 1
    ensures page >= 1 ==> p == page
    ensures page < 1 ==> p == 1
  {
    if page < 1 then 1 else page
  }

  function ClampSize(size: int): (s: int)
    ensures 1 <= s <= 200
    ensures s == if size <= 0 then 10 else if size > 200 then 200 else size
  {
    if size <= 0 then 10 else if size > 200 then 200 else size
  }

  /** `feed`: one page of the recipes of followed authors, newest first.  A page and
      size whose 32-bit offset `(page - 1) * size` is negative make the database
      refuse the query. */
  function Feed(users: map<int, User>, follows: set<(int, int)>, recipes: map<int, Recipe>, auth: AuthInfo,
                page: int, size: int, category: Option<string>): (r: Result<Page<int>>)
    ensures r.Err? <==> Login(users, auth) == -1 || Offset(ClampPage(page), ClampSize(size)) < 0
    ensures r.Err? ==> r.error == if Login(users, auth) == -1 then SecurityError else QueryRejected
    ensures r.Ok? ==>
      var m := FeedMatches(users, follows, recipes, auth.authorId, category);
      var keys := FeedKeys(recipes, m);
      var p := r.value;
      var lo := Offset(p.page, p.size);
      && p.page == ClampPage(page) && p.size == ClampSize(size) && p.total == |m|
      && |p.items| == (if lo >= |m| then 0 else Smaller(p.size, |m| - lo))
      && (forall i | 0 <= i < |p.items| :: p.items[i] in m && Rank(m, keys, p.items[i]) == lo + i)
      && (forall i, j | 0 <= i < j < |p.items| :: KeyLess(keys[p.items[i]], keys[p.items[j]]))
  {
    var me := Login(users, auth);
    if me == -1 then Err(SecurityError)
    else
      var m := FeedMatches(users, follows, recipes, me, category);
      var pg, sz := ClampPage(page), ClampSize(size);
      if Offset(pg, sz) < 0 then Err(QueryRejected)
      else Ok(Page(SortedPage(m, FeedKeys(recipes, m), Offset(pg, sz), sz), pg, sz, |m|))
  }

  // ---------------------------------------------------------------------------
  // Highest follow ratio

  /** Account `a` ranks before `b` under `ORDER BY followers / following DESC,
      author_id ASC`; both have a positive following count, so the ratios are
      compared by cross-multiplying. */
  predicate RanksBefore(users: map<int, User>, a: int, b: int)
    requires a in users && b in users
  {
    var (fa, ga, fb, gb) := (users[a].followers, users[a].following, users[b].followers, users[b].following);
    fa * gb > fb * ga || (fa * gb == fb * ga && a < b)
  }

  /** The accounts the query considers: live, with a positive following count. */
  function RatioCandidates(users: map<int, User>): (s: set<int>)
    ensures forall u :: u in s <==> u in users && !users[u].deleted && users[u].following > 0
  {
    set u | u in users && !users[u].deleted && users[u].following > 0
  }

  lemma MulLeftMono(a: int, b: int, c: int)
    requires a <= b && c > 0
    ensures a * c <= b * c
  {
  }

  lemma MulCancel(a: int, b: int, c: int)
    requires a * c <= b * c && c > 0
    ensures a <= b
  {
    if a > b {
      MulStrict(b, a, c);
    }
  }

  lemma MulStrict(a: int, b: int, c: int)
    requires a < b && c > 0
    ensures a * c < b * c
  {
  }

  /** Ratio comparison is transitive: `fa/ga >= fb/gb >= fc/gc` gives `fa/ga >= fc/gc`,
      strictly when one step is strict. */
  lemma RatioTransitive(fa: int, ga: int, fb: int, gb: int, fc: int, gc: int)
    requires ga > 0 && gb > 0 && gc > 0
    requires fa * gb >= fb * ga && fb * gc >= fc * gb
    ensures fa * gc >= fc * ga
    ensures (fa * gb > fb * ga || fb * gc > fc * gb) ==> fa * gc > fc * ga
  {
    MulLeftMono(fb * ga, fa * gb, gc);
    MulLeftMono(fc * gb, fb * gc, ga);
    assert fb * ga * gc == fb * gc * ga;
    assert fc * ga * gb == fc * gb * ga;
    assert fa * gb * gc == fa * gc * gb;
    assert (fc * ga) * gb <= (fa * gc) * gb;
    MulCancel(fc * ga, fa * gc, gb);
    if fa * gb > fb * ga {
      MulStrict(fb * ga, fa * gb, gc);
      assert (fc * ga) * gb < (fa * gc) * gb;
    } else if fb * gc > fc * gb {
      MulStrict(fc * gb, fb * gc, ga);
      assert (fc * ga) * gb < (fa * gc) * gb;
    }
    if fa * gb > fb * ga || fb * gc > fc * gb {
      if fa * gc <= fc * ga {
        MulLeftMono(fa * gc, fc * ga, gb);
      }
    }
  }

  lemma RanksBeforeTransitive(users: map<int, User>, a: int, b: int, c: int)
    requires a in users && b in users && c in users
    requires users[a].following > 0 && users[b].following > 0 && users[c].following > 0
    requires RanksBefore(users, a, b) && RanksBefore(users, b, c)
    ensures RanksBefore(users, a, c)
  {
    RatioTransitive(users[a].followers, users[a].following, users[b].followers, users[b].following,
                    users[c].followers, users[c].following);
  }

  /** The first account of the ordering among `s`. */
  function FirstByRatio(users: map<int, User>, s: set<int>): (b: int)
    requires s != {} && s <= RatioCandidates(users)
    ensures b in s
    ensures forall u | u in s && u != b :: RanksBefore(users, b, u)
    decreases s
  {
    var m := Min(s);
    if s == {m} then m
    else
      var best := FirstByRatio(users, s - {m});
      if RanksBefore(users, m, best) then
        RanksBeforeAll(users, s, m, best);
        m
      else
        best
  }

  lemma RanksBeforeAll(users: map<int, User>, s: set<int>, m: int, best: int)
    requires s <= RatioCandidates(users) && m in s && best in s - {m}
    requires forall u | u in s - {m} && u != best :: RanksBefore(users, best, u)
    requires RanksBefore(users, m, best)
    ensures forall u | u in s && u != m :: RanksBefore(users, m, u)
  {
    forall u | u in s && u != m && u != best
      ensures RanksBefore(users, m, u)
    {
      RanksBeforeTransitive(users, m, best, u);
    }
  }

  datatype RatioRow = RatioRow(authorId: int, authorName: string, followers: int, following: int)

  /** `getUserWithHighestFollowRatio`: the live account with the largest
      followers-to-following ratio, the smallest id among equals, or null when no
      live account follows anyone. */
  function HighestFollowRatio(users: map<int, User>): (r: Option<RatioRow>)
    ensures r.None? <==> RatioCandidates(users) == {}
    ensures r.Some? ==>
      && r.value.authorId in RatioCandidates(users)
      && r.value.authorName == users[r.value.authorId].name
      && r.value.followers == users[r.value.authorId].followers
      && r.value.following == users[r.value.authorId].following
      && forall u | u in RatioCandidates(users) && u != r.value.authorId :: RanksBefore(users, r.value.authorId, u)
  {
    var s := RatioCandidates(users);
    if s == {} then None
    else
      var b := FirstByRatio(users, s);
      Some(RatioRow(b, users[b].name, users[b].followers, users[b].following))
  }
}
