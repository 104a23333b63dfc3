/**
 * A tweet feed service. Users are created on first mention and follow themselves; a post
 * takes the next id and goes to the head of its author's list, so each list runs newest
 * first; a news feed merges the lists of everyone the user follows through a priority
 * queue ordered by timestamp and keeps the ten newest tweets.
 */
module Feed {
  import opened JavaLang

  /** A tweet never changes once made, so it is a value. */
  datatype Tweet = Tweet(id: nat, userId: string, text: string, ts: int64)

  /**
   * A user: the ids they follow and their tweets, newest first. The singly linked list of
   * tweet nodes is never relinked once a node is prepended, so it is a sequence here.
   */
  datatype User = User(id: string, following: set<string>, tweets: seq<Tweet>)

  /** The user `computeIfAbsent` creates: following only themselves, with no tweets. */
  function NewUser(id: string): (u: User)
    ensures id in u.following && u.tweets == []
  {
    User(id, {id}, [])
  }

  /** `user(id)`: the map with `id` present, created afresh if it was missing. */
  function Ensure(users: map<string, User>, id: string): (r: map<string, User>)
    ensures r.Keys == users.Keys + {id}
    ensures r[id] == if id in users then users[id] else NewUser(id)
    ensures forall k :: k in users ==> r[k] == users[k]
  {
    if id in users then users else users[id := NewUser(id)]
  }

  /** `follow`: the follower, created if missing, also follows `followee`. */
  function Followed(users: map<string, User>, follower: string, followee: string): map<string, User> {
    var u := Ensure(users, follower)[follower];
    Ensure(users, follower)[follower := u.(following := u.following + {followee})]
  }

  /** `unfollow`: nothing for oneself; otherwise the follower, created if missing, stops following `followee`. */
  function Unfollowed(users: map<string, User>, follower: string, followee: string): map<string, User> {
    if follower == followee then users
    else
      var u := Ensure(users, follower)[follower];
      Ensure(users, follower)[follower := u.(following := u.following - {followee})]
  }

  /** Following twice is following once. */
  lemma FollowIdempotent(users: map<string, User>, follower: string, followee: string)
    ensures Followed(Followed(users, follower, followee), follower, followee) == Followed(users, follower, followee)
  {
    var once := Followed(users, follower, followee);
    var u := once[follower];
    assert u.following + {followee} == u.following;
    assert Ensure(once, follower) == once;
  }

  /** Unfollowing someone just followed, whom the follower did not follow before, undoes the follow. */
  lemma FollowThenUnfollow(users: map<string, User>, follower: string, followee: string)
    requires follower != followee
    requires followee !in Ensure(users, follower)[follower].following
    ensures Unfollowed(Followed(users, follower, followee), follower, followee) == Ensure(users, follower)
  {
    var u := Ensure(users, follower)[follower];
    assert u.following + {followee} - {followee} == u.following;
  }

  // ---------------------------------------------------------------------------
  // Merging the lists of the followed users
  // ---------------------------------------------------------------------------

  /** The most tweets a feed shows. */
  const FeedSize: int := 10

  /** A position in the lists: a user and an index into their tweets, as a tweet node is. */
  type Cursor = (string, int)

  predicate ValidPos(lists: map<string, seq<Tweet>>, c: Cursor) {
    c.0 in lists && 0 <= c.1 < |lists[c.0]|
  }

  function At(lists: map<string, seq<Tweet>>, c: Cursor): Tweet
    requires ValidPos(lists, c)
  {
    lists[c.0][c.1]
  }

  /** Every list runs newest first. */
  predicate NewestFirst(lists: map<string, seq<Tweet>>) {
    forall f, a, b :: f in lists && 0 <= a < b < |lists[f]| ==> lists[f][b].ts <= lists[f][a].ts
  }

  /**
   * `res` is a news feed of `lists`: at most ten tweets, taken from distinct positions
   * (`taken`), in non-increasing timestamp order, none older than a tweet left out, and
   * all of them when fewer than ten are shown.
   */
  ghost predicate IsFeed(lists: map<string, seq<Tweet>>, res: seq<Tweet>, taken: seq<Cursor>) {
    && |res| <= FeedSize && |taken| == |res|
    && (forall k :: 0 <= k < |res| ==> ValidPos(lists, taken[k]) && res[k] == At(lists, taken[k]))
    && (forall a, b :: 0 <= a < b < |taken| ==> taken[a] != taken[b])
    && (forall a, b :: 0 <= a < b < |res| ==> res[b].ts <= res[a].ts)
    && (forall f, j, k :: f in lists && 0 <= j < |lists[f]| && (f, j) !in taken && 0 <= k < |res| ==>
          lists[f][j].ts <= res[k].ts)
    && (|res| < FeedSize ==> forall f, j :: f in lists && 0 <= j < |lists[f]| ==> (f, j) in taken)
  }

  /** A non-empty queue has a newest head. */
  lemma {:induction false} NewestInQueue(lists: map<string, seq<Tweet>>, pq: set<Cursor>) returns (c: Cursor)
    requires pq != {} && forall d :: d in pq ==> ValidPos(lists, d)
    ensures c in pq && forall d :: d in pq ==> At(lists, d).ts <= At(lists, c).ts
    decreases |pq|
  {
    var x :| x in pq;
    if pq - {x} == {} {
      assert pq == {x};
      c := x;
    } else {
      var m := NewestInQueue(lists, pq - {x});
      c := if At(lists, x).ts <= At(lists, m).ts then m else x;
    }
  }

  /**
   * The state of the polling loop of `getNewsFeed`: `next[f]` tweets of `f` are taken and
   * the queue holds the node after them, if any; every taken tweet is at a distinct
   * position, the taken tweets are in non-increasing timestamp order, and none is older
   * than a tweet still to come.
   */
  ghost predicate Polling(lists: map<string, seq<Tweet>>, pq: set<Cursor>, next: map<string, int>,
                          res: seq<Tweet>, taken: seq<Cursor>)
  {
    Queued(lists, pq, next) && Taken(lists, next, res, taken)
  }

  /** The queue holds exactly the first untaken node of each list that has one. */
  ghost predicate Queued(lists: map<string, seq<Tweet>>, pq: set<Cursor>, next: map<string, int>) {
    && next.Keys == lists.Keys
    && (forall f :: f in lists ==> 0 <= next[f] <= |lists[f]|)
    && (forall c :: c in pq ==> c.0 in lists && c.1 == next[c.0] && c.1 < |lists[c.0]|)
    && (forall f :: f in lists && next[f] < |lists[f]| ==> (f, next[f]) in pq)
  }

  ghost predicate Taken(lists: map<string, seq<Tweet>>, next: map<string, int>, res: seq<Tweet>, taken: seq<Cursor>)
    requires next.Keys == lists.Keys
  {
    TakenFirst(lists, next, res, taken) && TakenNewest(lists, next, res)
  }

  /** The taken tweets are the first `next[f]` of each list `f`, each at a distinct position. */
  ghost predicate TakenFirst(lists: map<string, seq<Tweet>>, next: map<string, int>, res: seq<Tweet>, taken: seq<Cursor>)
    requires next.Keys == lists.Keys
  {
    && |res| <= FeedSize && |taken| == |res|
    && (forall k :: 0 <= k < |res| ==>
          ValidPos(lists, taken[k]) && res[k] == At(lists, taken[k]) && taken[k].1 < next[taken[k].0])
    && (forall f, j :: f in lists && 0 <= j < next[f] ==> (f, j) in taken)
    && (forall a, b :: 0 <= a < b < |taken| ==> taken[a] != taken[b])
  }

  /** The taken tweets run newest first and none is older than a tweet left. */
  ghost predicate TakenNewest(lists: map<string, seq<Tweet>>, next: map<string, int>, res: seq<Tweet>)
    requires next.Keys == lists.Keys
  {
    && (forall a, b :: 0 <= a < b < |res| ==> res[b].ts <= res[a].ts)
    && (forall f, j, k :: f in lists && 0 <= next[f] <= j < |lists[f]| && 0 <= k < |res| ==>
          lists[f][j].ts <= res[k].ts)
  }

  /** The queue after polling `c`: its list's next node, if any, takes its place. */
  function Advance(lists: map<string, seq<Tweet>>, pq: set<Cursor>, c: Cursor): set<Cursor>
    requires c.0 in lists
  {
    (pq - {c}) + (if c.1 + 1 < |lists[c.0]| then {(c.0, c.1 + 1)} else {})
  }

  /** Polling the newest head keeps the loop state. */
  lemma PollStep(lists: map<string, seq<Tweet>>, pq: set<Cursor>, next: map<string, int>,
                 res: seq<Tweet>, taken: seq<Cursor>, c: Cursor)
    requires NewestFirst(lists) && Polling(lists, pq, next, res, taken) && |res| < FeedSize
    requires c in pq && forall d :: d in pq ==> At(lists, d).ts <= At(lists, c).ts
    ensures Polling(lists, Advance(lists, pq, c), next[c.0 := c.1 + 1], res + [At(lists, c)], taken + [c])
  {
    QueueStep(lists, pq, next, c);
    NewestOfRest(lists, pq, next, c);
    TakeStep(lists, next, res, taken, c);
    TakeNewest(lists, next, res, c);
  }

  /** After a poll the queue holds the node after the polled one in its place. */
  lemma QueueStep(lists: map<string, seq<Tweet>>, pq: set<Cursor>, next: map<string, int>, c: Cursor)
    requires Queued(lists, pq, next) && c in pq
    ensures Queued(lists, Advance(lists, pq, c), next[c.0 := c.1 + 1])
  {
  }

  /** Taking the head of list `c.0` keeps the taken tweets the first of each list. */
  lemma TakeStep(lists: map<string, seq<Tweet>>, next: map<string, int>, res: seq<Tweet>, taken: seq<Cursor>, c: Cursor)
    requires next.Keys == lists.Keys
    requires TakenFirst(lists, next, res, taken) && |res| < FeedSize
    requires ValidPos(lists, c) && c.1 == next[c.0]
    ensures TakenFirst(lists, next[c.0 := c.1 + 1], res + [At(lists, c)], taken + [c])
  {
    var next', res', taken' := next[c.0 := c.1 + 1], res + [At(lists, c)], taken + [c];
    forall k | 0 <= k < |res'|
      ensures ValidPos(lists, taken'[k]) && res'[k] == At(lists, taken'[k]) && taken'[k].1 < next'[taken'[k].0]
    {
      if k < |res| {
        assert taken'[k] == taken[k] && res'[k] == res[k];
      }
    }
    forall f, j | f in lists && 0 <= j < next'[f]
      ensures (f, j) in taken'
    {
      if (f, j) != c {
        assert (f, j) in taken;
      }
    }
    forall a, b | 0 <= a < b < |taken'|
      ensures taken'[a] != taken'[b]
    {
      if b == |taken| {
        assert taken[a].1 < next[taken[a].0];
      }
    }
  }

  /** Taking a tweet no older than any left keeps the taken tweets newest first. */
  lemma TakeNewest(lists: map<string, seq<Tweet>>, next: map<string, int>, res: seq<Tweet>, c: Cursor)
    requires next.Keys == lists.Keys && forall f :: f in lists ==> 0 <= next[f]
    requires TakenNewest(lists, next, res)
    requires ValidPos(lists, c) && c.1 == next[c.0]
    requires forall f, j :: f in lists && next[f] <= j < |lists[f]| ==> lists[f][j].ts <= At(lists, c).ts
    ensures TakenNewest(lists, next[c.0 := c.1 + 1], res + [At(lists, c)])
  {
    var next', res' := next[c.0 := c.1 + 1], res + [At(lists, c)];
    forall k | 0 <= k < |res|
      ensures At(lists, c).ts <= res[k].ts
    {
    }
    forall f, j, k | f in lists && 0 <= next'[f] <= j < |lists[f]| && 0 <= k < |res'|
      ensures lists[f][j].ts <= res'[k].ts
    {
      if k < |res| {
        assert res'[k] == res[k];
      }
    }
  }

  /** When the loop stops, its state is a feed. */
  lemma PollDone(lists: map<string, seq<Tweet>>, pq: set<Cursor>, next: map<string, int>,
                 res: seq<Tweet>, taken: seq<Cursor>)
    requires Polling(lists, pq, next, res, taken) && (pq == {} || |res| == FeedSize)
    ensures IsFeed(lists, res, taken)
  {
    forall f, j | f in lists && 0 <= j < |lists[f]| && (f, j) !in taken
      ensures next[f] <= j
    {
    }
    if |res| < FeedSize {
      forall g, j | g in lists && 0 <= j < |lists[g]|
        ensures (g, j) in taken
      {
        assert next[g] == |lists[g]|;
      }
    }
  }

  /**
   * The polling loop of `getNewsFeed`: repeatedly takes the newest head from the queue,
   * adds its tweet and puts that list's next node in its place, until ten tweets are
   * taken or the queue is empty. Ties between timestamps go to any of the newest heads.
   */
  method Merge(lists: map<string, seq<Tweet>>, seed: set<Cursor>) returns (res: seq<Tweet>, ghost taken: seq<Cursor>)
    requires NewestFirst(lists)
    requires forall c :: c in seed <==> c.0 in lists && c.1 == 0 && lists[c.0] != []
    ensures IsFeed(lists, res, taken)
    ensures |res| <= FeedSize && forall a, b :: 0 <= a < b < |res| ==> res[b].ts <= res[a].ts
  {
    var pq := seed;
    ghost var next: map<string, int> := map f | f in lists :: 0;
    res, taken := [], [];
    while pq != {} && |res| < FeedSize
      invariant Polling(lists, pq, next, res, taken)
      decreases FeedSize - |res|
    {
      ghost var newest := NewestInQueue(lists, pq);
      var c :| c in pq && forall d :: d in pq ==> At(lists, d).ts <= At(lists, c).ts;
      PollStep(lists, pq, next, res, taken, c);
      pq := Advance(lists, pq, c);
      res := res + [At(lists, c)];
      taken := taken + [c];
      next := next[c.0 := c.1 + 1];
    }
    PollDone(lists, pq, next, res, taken);
  }

  /** The newest head of the queue is no older than any tweet not yet taken. */
  lemma NewestOfRest(lists: map<string, seq<Tweet>>, pq: set<Cursor>, next: map<string, int>, c: Cursor)
    requires NewestFirst(lists) && next.Keys == lists.Keys
    requires forall f :: f in lists ==> 0 <= next[f]
    requires forall f :: f in lists && next[f] < |lists[f]| ==> (f, next[f]) in pq
    requires forall d :: d in pq ==> ValidPos(lists, d)
    requires c in pq && forall d :: d in pq ==> At(lists, d).ts <= At(lists, c).ts
    ensures forall f, j :: f in lists && next[f] <= j < |lists[f]| ==> lists[f][j].ts <= At(lists, c).ts
  {
    forall f, j | f in lists && next[f] <= j < |lists[f]|
      ensures lists[f][j].ts <= At(lists, c).ts
    {
      assert (f, next[f]) in pq;
      assert lists[f][j].ts <= lists[f][next[f]].ts;
    }
  }

  // ---------------------------------------------------------------------------
  // The service
  // ---------------------------------------------------------------------------

  /** The tweets of each followed user, as `getNewsFeed` sees them. */
  function ListsOf(users: map<string, User>, following: set<string>): map<string, seq<Tweet>> {
    map f | f in following && f in users :: users[f].tweets
  }

  /**
   * User `u`, stored under `k`, follows themselves; their tweets carry their id, were
   * numbered below `nextId` and stamped no later than `clock`, and run newest first with
   * strictly decreasing ids.
   */
  ghost predicate UserOk(k: string, u: User, nextId: int, clock: int) {
    && u.id == k && k in u.following
    && (forall i :: 0 <= i < |u.tweets| ==>
          u.tweets[i].userId == k && u.tweets[i].id < nextId && u.tweets[i].ts <= clock)
    && (forall a, b :: 0 <= a < b < |u.tweets| ==>
          u.tweets[b].ts <= u.tweets[a].ts && u.tweets[b].id < u.tweets[a].id)
  }

  ghost predicate UsersOk(users: map<string, User>, nextId: int, clock: int) {
    nextId >= 1 && forall k :: k in users ==> UserOk(k, users[k], nextId, clock)
  }

  /** `users` after looking up each of `ids`: the missing ones are created. */
  function Touched(users: map<string, User>, ids: set<string>): (r: map<string, User>)
    ensures r.Keys == users.Keys + ids
    ensures forall k :: k in r ==> r[k] == if k in users then users[k] else NewUser(k)
  {
    map k | k in users.Keys + ids :: if k in users then users[k] else NewUser(k)
  }

  /** Looking up one more id is one more step of `Touched`. */
  lemma TouchedStep(users: map<string, User>, ids: set<string>, id: string)
    ensures Ensure(Touched(users, ids), id) == Touched(users, ids + {id})
  {
  }

  /** Creating missing users keeps every user well formed. */
  lemma TouchedOk(users: map<string, User>, ids: set<string>, nextId: int, clock: int)
    requires UsersOk(users, nextId, clock)
    ensures UsersOk(Touched(users, ids), nextId, clock)
  {
  }

  /** Creating a missing user keeps every user well formed. */
  lemma EnsureOk(users: map<string, User>, id: string, nextId: int, clock: int)
    requires UsersOk(users, nextId, clock)
    ensures UsersOk(Ensure(users, id), nextId, clock)
  {
  }

  /** A tweet with the next id and a time no earlier than any before it can go to the head. */
  lemma PrependOk(k: string, u: User, t: Tweet, nextId: int, clock: int)
    requires UserOk(k, u, nextId, clock) && t.userId == k && t.id == nextId && clock <= t.ts
    ensures UserOk(k, u.(tweets := [t] + u.tweets), nextId + 1, t.ts)
  {
    var ts := [t] + u.tweets;
    forall a, b | 0 <= a < b < |ts|
      ensures ts[b].ts <= ts[a].ts && ts[b].id < ts[a].id
    {
      if a == 0 {
        assert ts[b] == u.tweets[b - 1];
      } else {
        assert ts[a] == u.tweets[a - 1] && ts[b] == u.tweets[b - 1];
      }
    }
  }

  /**
   * `users` after `t` is posted: its author, created if missing, has it at the head of
   * their list; nobody else changes.
   */
  function Posted(users: map<string, User>, t: Tweet): (r: map<string, User>)
    ensures r.Keys == users.Keys + {t.userId}
    ensures r[t.userId].tweets == [t] + (if t.userId in users then users[t.userId].tweets else [])
    ensures r[t.userId].following == (if t.userId in users then users[t.userId].following else {t.userId})
    ensures forall k :: k in users && k != t.userId ==> r[k] == users[k]
  {
    var before := Ensure(users, t.userId);
    before[t.userId := before[t.userId].(tweets := [t] + before[t.userId].tweets)]
  }

  /** Posting a tweet with the next id at a time no earlier than the clock keeps every user well formed. */
  lemma PostedOk(users: map<string, User>, t: Tweet, nextId: int, clock: int)
    requires UsersOk(users, nextId, clock) && t.id == nextId && clock <= t.ts
    ensures UsersOk(Posted(users, t), nextId + 1, t.ts)
  {
    var before := Ensure(users, t.userId);
    EnsureOk(users, t.userId, nextId, clock);
    PrependOk(t.userId, before[t.userId], t, nextId, clock);
    forall k | k in before
      ensures UserOk(k, before[k], nextId + 1, t.ts)
    {
      UserOkLater(k, before[k], nextId, clock, nextId + 1, t.ts);
    }
  }

  /** Following keeps every user well formed. */
  lemma FollowedOk(users: map<string, User>, follower: string, followee: string, nextId: int, clock: int)
    requires UsersOk(users, nextId, clock)
    ensures UsersOk(Followed(users, follower, followee), nextId, clock)
  {
    EnsureOk(users, follower, nextId, clock);
  }

  /** Unfollowing keeps every user well formed: in particular nobody stops following themselves. */
  lemma UnfollowedOk(users: map<string, User>, follower: string, followee: string, nextId: int, clock: int)
    requires UsersOk(users, nextId, clock)
    ensures UsersOk(Unfollowed(users, follower, followee), nextId, clock)
  {
    if follower != followee {
      EnsureOk(users, follower, nextId, clock);
      assert UserOk(follower, Ensure(users, follower)[follower], nextId, clock);
    }
  }

  /** A well formed user stays so as the counter and the clock move forward. */
  lemma UserOkLater(k: string, u: User, nextId: int, clock: int, nextId': int, clock': int)
    requires UserOk(k, u, nextId, clock) && nextId <= nextId' && clock <= clock'
    ensures UserOk(k, u, nextId', clock')
  {
  }

  /** Well formed users give a feed lists that each run newest first. */
  lemma ListsNewestFirst(users: map<string, User>, following: set<string>, nextId: int, clock: int)
    requires UsersOk(users, nextId, clock)
    ensures NewestFirst(ListsOf(users, following))
  {
    var lists: map<string, seq<Tweet>> := ListsOf(users, following);
    forall f: string, a: int, b: int | f in lists && 0 <= a < b < |lists[f]|
      ensures lists[f][b].ts <= lists[f][a].ts
    {
      assert UserOk(f, users[f], nextId, clock);
    }
  }

  class FeedService {
    var nextTweetId: nat
    var users: map<string, User>
    /** The latest timestamp handed to the service. */
    ghost var clock: int

    /**
     * Each user is stored under their id and follows themselves; their tweets carry their
     * id, were numbered below `nextTweetId` and stamped no later than `clock`, and run
     * newest first with strictly decreasing ids.
     */
    ghost predicate Valid()
      reads this
    {
      UsersOk(users, nextTweetId, clock)
    }

    /** A new service numbers its first tweet 1 and has no users. */
    constructor(now: int64)
      ensures Valid() && nextTweetId == 1 && users == map[] && clock == now
    {
      nextTweetId := 1;
      users := map[];
      clock := now;
    }

    /**
     * `postTweet`: the tweet takes the next id and the time `now`, and goes to the head of
     * its author's list (the author is created if missing). `now` is never earlier than
     * the time of an earlier post.
     */
    method PostTweet(userId: string, text: string, now: int64) returns (t: Tweet)
      requires Valid() && clock <= now
      modifies this
      ensures Valid() && clock == now
      ensures t == Tweet(old(nextTweetId), userId, text, now) && nextTweetId == old(nextTweetId) + 1
      ensures users == Posted(old(users), t)
    {
      t := Tweet(nextTweetId, userId, text, now);
      PostedOk(users, t, nextTweetId, clock);
      users := Posted(users, t);
      nextTweetId := nextTweetId + 1;
      clock := now;
    }

    /** `follow`: see `Followed`. */
    method Follow(follower: string, followee: string)
      requires Valid()
      modifies this
      ensures Valid()
      ensures users == Followed(old(users), follower, followee) && nextTweetId == old(nextTweetId)
    {
      FollowedOk(users, follower, followee, nextTweetId, clock);
      var u := Ensure(users, follower)[follower];
      users := Ensure(users, follower)[follower := u.(following := u.following + {followee})];
    }

    /** `unfollow`: see `Unfollowed`; a user never stops following themselves. */
    method Unfollow(follower: string, followee: string)
      requires Valid()
      modifies this
      ensures Valid()
      ensures users == Unfollowed(old(users), follower, followee) && nextTweetId == old(nextTweetId)
    {
      UnfollowedOk(users, follower, followee, nextTweetId, clock);
      if follower != followee {
        var u := Ensure(users, follower)[follower];
        users := Ensure(users, follower)[follower := u.(following := u.following - {followee})];
      }
    }

    /**
     * The first loop of `getNewsFeed`: every followed id is looked up, which creates the
     * missing ones, and the head of each non-empty list goes into the queue.
     */
    method SeedQueue(following: set<string>) returns (pq: set<Cursor>)
      requires Valid()
      modifies this
      ensures Valid() && nextTweetId == old(nextTweetId) && users == Touched(old(users), following)
      ensures forall c :: c in pq <==> c.0 in following && c.1 == 0 && users[c.0].tweets != []
    {
      ghost var start := users;
      ghost var done: set<string> := {};
      pq := {};
      var todo := following;
      while todo != {}
        invariant done + todo == following && users == Touched(start, done)
        invariant nextTweetId == old(nextTweetId) && clock == old(clock)
        invariant forall c :: c in pq <==> c.0 in done && c.1 == 0 && users[c.0].tweets != []
        decreases todo
      {
        var fol :| fol in todo;
        TouchedStep(start, done, fol);
        users := Ensure(users, fol);
        if users[fol].tweets != [] {
          pq := pq + {(fol, 0)};
        }
        todo := todo - {fol};
        done := done + {fol};
      }
      TouchedOk(start, done, nextTweetId, clock);
    }

    /**
     * `getNewsFeed`: creates the user and every user they follow if missing, then returns
     * a feed of the followed users' lists (the user's own among them).
     */
    method GetNewsFeed(userId: string) returns (res: seq<Tweet>, ghost taken: seq<Cursor>)
      requires Valid()
      modifies this
      ensures Valid() && nextTweetId == old(nextTweetId)
      ensures var reader := Ensure(old(users), userId);
        users == Touched(reader, reader[userId].following)
      ensures IsFeed(ListsOf(users, users[userId].following), res, taken)
      ensures forall k :: 0 <= k < |res| ==> res[k].userId in users[userId].following
    {
      EnsureOk(users, userId, nextTweetId, clock);
      users := Ensure(users, userId);
      var following := users[userId].following;
      var pq := SeedQueue(following);
      var lists: map<string, seq<Tweet>> := ListsOf(users, following);
      ListsNewestFirst(users, following, nextTweetId, clock);
      res, taken := Merge(lists, pq);
      FeedIsFollowed(users, following, res, taken, nextTweetId, clock);
    }
  }

  /** A feed holds only tweets of users the reader follows. */
  lemma FeedIsFollowed(users: map<string, User>, following: set<string>, res: seq<Tweet>, taken: seq<Cursor>,
                       nextId: int, clock: int)
    requires UsersOk(users, nextId, clock)
    requires IsFeed(ListsOf(users, following), res, taken)
    ensures forall k :: 0 <= k < |res| ==> res[k].userId in following
  {
    forall k | 0 <= k < |res|
      ensures res[k].userId in following
    {
      assert ValidPos(ListsOf(users, following), taken[k]);
      assert UserOk(taken[k].0, users[taken[k].0], nextId, clock);
    }
  }
}
