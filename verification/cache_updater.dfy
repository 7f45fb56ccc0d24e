/** The fanout updater (InMemoryTweetCacheUpdaterService.UpdateFollowersCacheAsync):
    for a freshly created tweet, every follower of its author gets the tweet
    prepended to their cached timeline page 1, or, when no page 1 is cached,
    a page 1 rebuilt from the store. Followers are processed one after the
    other; a failure while rebuilding one follower's page is swallowed. */
module CacheUpdater {
  import opened Common
  import opened TtlStore
  import opened TweetCache

  /* ---------- the source of truth ---------- */

  /** A follow edge: `userFollowerId` follows `userId`. */
  datatype Follow = Follow(userId: Guid, userFollowerId: Guid)

  datatype Tweet = Tweet(id: Guid, userId: Guid, content: string, createdAt: int)

  datatype User = User(id: Guid, userName: string)

  /** The rows of the Follows, Tweets and Users tables, in store order. */
  datatype Store = Store(follows: seq<Follow>, tweets: seq<Tweet>, users: seq<User>)

  /** No row occurs twice: (UserId, UserFollowerId) is the key of Follows. */
  predicate NoDuplicates<T(==)>(s: seq<T>)
  {
    forall i, j :: 0 <= i < j < |s| ==> s[i] != s[j]
  }

  /* ---------- the queries ---------- */

  /** Follows.Where(f => f.UserId == author).Select(f => f.UserFollowerId) */
  function FollowerIdsOf(follows: seq<Follow>, author: Guid): seq<Guid>
  {
    if follows == [] then []
    else
      (if follows[0].userId == author then [follows[0].userFollowerId] else [])
      + FollowerIdsOf(follows[1..], author)
  }

  /** Follows.Where(ff => ff.UserFollowerId == fid).Select(ff => ff.UserId) */
  function FollowedBy(follows: seq<Follow>, fid: Guid): seq<Guid>
  {
    if follows == [] then []
    else
      (if follows[0].userFollowerId == fid then [follows[0].userId] else [])
      + FollowedBy(follows[1..], fid)
  }

  /** The view the join projects a tweet and its author row to. */
  function ViewOf(t: Tweet, u: User): TweetView
  {
    TweetView(t.id, t.userId, t.content, t.createdAt, Some(u.userName))
  }

  /** The inner-join rows of one tweet: one per user row with its author id. */
  function JoinOne(t: Tweet, users: seq<User>): seq<TweetView>
  {
    if users == [] then []
    else (if users[0].id == t.userId then [ViewOf(t, users[0])] else []) + JoinOne(t, users[1..])
  }

  /** Tweets.Where(t => followed.Contains(t.UserId)).Join(Users, t => t.UserId, u => u.Id, ...) */
  function JoinViews(tweets: seq<Tweet>, users: seq<User>, followed: seq<Guid>): seq<TweetView>
  {
    if tweets == [] then []
    else
      (if tweets[0].userId in followed then JoinOne(tweets[0], users) else [])
      + JoinViews(tweets[1..], users, followed)
  }

  /** Every item of `page` is at most as new as `v`. */
  predicate NoNewerThan(v: TweetView, page: seq<TweetView>)
  {
    forall j :: 0 <= j < |page| ==> v.createdAt >= page[j].createdAt
  }

  lemma SortedDescCons(v: TweetView, page: seq<TweetView>)
    ensures SortedDesc([v] + page) <==> NoNewerThan(v, page) && SortedDesc(page)
  {
    var s := [v] + page;
    if NoNewerThan(v, page) && SortedDesc(page) {
      forall i, j | 0 <= i < j < |s|
        ensures s[i].createdAt >= s[j].createdAt
      {
        assert s[j] == page[j - 1];
        if i > 0 {
          assert s[i] == page[i - 1];
        }
      }
    }
    if SortedDesc(s) {
      forall i, j | 0 <= i < j < |page|
        ensures page[i].createdAt >= page[j].createdAt
      {
        assert page[i] == s[i + 1] && page[j] == s[j + 1];
      }
      forall j | 0 <= j < |page|
        ensures v.createdAt >= page[j].createdAt
      {
        assert s[0] == v && page[j] == s[j + 1];
      }
    }
  }

  /** Places `v` before the first item that is not newer than it. */
  function InsertByCreatedDesc(v: TweetView, sorted: seq<TweetView>): (r: seq<TweetView>)
    requires SortedDesc(sorted)
    ensures multiset(r) == multiset(sorted) + multiset{v}
    ensures SortedDesc(r)
  {
    if sorted == [] || v.createdAt >= sorted[0].createdAt then
      SortedDescCons(v, sorted);
      [v] + sorted
    else
      var rest := InsertByCreatedDesc(v, sorted[1..]);
      SortedDescCons(sorted[0], sorted[1..]);
      assert sorted == [sorted[0]] + sorted[1..];
      forall j | 0 <= j < |rest|
        ensures sorted[0].createdAt >= rest[j].createdAt
      {
        assert rest[j] in multiset(rest);
        if rest[j] != v {
          assert rest[j] in sorted[1..];
        }
      }
      SortedDescCons(sorted[0], rest);
      [sorted[0]] + rest
  }

  /** OrderByDescending(dto => dto.CreatedAt): a stable sort, newest first. */
  function SortByCreatedDesc(s: seq<TweetView>): (r: seq<TweetView>)
    ensures multiset(r) == multiset(s)
    ensures SortedDesc(r)
  {
    if s == [] then []
    else
      assert s == [s[0]] + s[1..];
      InsertByCreatedDesc(s[0], SortByCreatedDesc(s[1..]))
  }

  /** Enumerable.Take: the first `n` items, none when `n` is not positive. */
  function Take<T>(s: seq<T>, n: int): (r: seq<T>)
    ensures |r| == if n <= 0 then 0 else if |s| <= n then |s| else n
    ensures r <= s
  {
    if n <= 0 then [] else if |s| <= n then s else s[..n]
  }

  /** Page 1 of follower `fid`'s timeline as the store computes it. */
  function RebuildPage(store: Store, fid: Guid, pageSize: int): Page
  {
    var followed := FollowedBy(store.follows, fid);
    Take(SortByCreatedDesc(JoinViews(store.tweets, store.users, followed)), pageSize)
  }

  /* ---------- the queries, proved ---------- */

  /** The followers listed are exactly the followers of `author`. */
  lemma {:induction false} FollowerIdsExact(follows: seq<Follow>, author: Guid)
    ensures forall f :: f in FollowerIdsOf(follows, author) <==> Follow(author, f) in follows
  {
    if follows != [] {
      FollowerIdsExact(follows[1..], author);
      assert follows == [follows[0]] + follows[1..];
    }
  }

  /** With no duplicate edges, no follower is listed twice. */
  lemma {:induction false} FollowerIdsDistinct(follows: seq<Follow>, author: Guid)
    requires NoDuplicates(follows)
    ensures NoDuplicates(FollowerIdsOf(follows, author))
  {
    if follows != [] {
      var tail := follows[1..];
      assert NoDuplicates(tail) by {
        forall i, j | 0 <= i < j < |tail| ensures tail[i] != tail[j] {
          assert tail[i] == follows[i + 1] && tail[j] == follows[j + 1];
        }
      }
      FollowerIdsDistinct(tail, author);
      FollowerIdsExact(tail, author);
      var rest := FollowerIdsOf(tail, author);
      if follows[0].userId == author {
        assert follows[0].userFollowerId !in rest;
        var r := [follows[0].userFollowerId] + rest;
        forall i, j | 0 <= i < j < |r| ensures r[i] != r[j] {
          assert r[j] == rest[j - 1];
          if i > 0 {
            assert r[i] == rest[i - 1];
          }
        }
      }
    }
  }

  /** The followed authors listed are exactly the ones `fid` follows. */
  lemma {:induction false} FollowedByExact(follows: seq<Follow>, fid: Guid)
    ensures forall a :: a in FollowedBy(follows, fid) <==> Follow(a, fid) in follows
  {
    if follows != [] {
      FollowedByExact(follows[1..], fid);
      assert follows == [follows[0]] + follows[1..];
    }
  }

  lemma {:induction false} JoinOneExact(t: Tweet, users: seq<User>)
    ensures forall v :: v in JoinOne(t, users) <==>
      exists u :: u in users && u.id == t.userId && v == ViewOf(t, u)
  {
    if users != [] {
      JoinOneExact(t, users[1..]);
      assert users == [users[0]] + users[1..];
    }
  }

  /** The inner join holds one view per (tweet, author row) pair whose author
      is followed, and nothing else. */
  lemma {:induction false} JoinViewsExact(tweets: seq<Tweet>, users: seq<User>, followed: seq<Guid>)
    ensures forall v :: v in JoinViews(tweets, users, followed) <==>
      exists t, u :: t in tweets && u in users && t.userId in followed && u.id == t.userId && v == ViewOf(t, u)
  {
    if tweets != [] {
      JoinViewsExact(tweets[1..], users, followed);
      JoinOneExact(tweets[0], users);
      assert tweets == [tweets[0]] + tweets[1..];
      forall v | v in JoinViews(tweets, users, followed)
        ensures exists t, u :: t in tweets && u in users && t.userId in followed && u.id == t.userId && v == ViewOf(t, u)
      {
        if tweets[0].userId in followed && v in JoinOne(tweets[0], users) {
          var u :| u in users && u.id == tweets[0].userId && v == ViewOf(tweets[0], u);
          assert tweets[0] in tweets;
        } else {
          assert v in JoinViews(tweets[1..], users, followed);
          var t, u :| t in tweets[1..] && u in users && t.userId in followed && u.id == t.userId && v == ViewOf(t, u);
          assert t in tweets;
        }
      }
    }
  }

  /** Taking the first `n` items of a list sorted newest first keeps the
      newest ones: whatever is left out is no newer than the last item kept,
      and is only left out when the taken part is full. */
  lemma TakeKeepsNewest(s: seq<TweetView>, n: int, v: TweetView)
    requires SortedDesc(s) && v in s && v !in Take(s, n)
    ensures var r := Take(s, n);
      |r| == (if n < 0 then 0 else n) && (|r| > 0 ==> r[|r| - 1].createdAt >= v.createdAt)
  {
    var r := Take(s, n);
    var i :| 0 <= i < |s| && s[i] == v;
    if i < |r| {
      assert false;
    }
    if |r| > 0 {
      assert r[|r| - 1] == s[|r| - 1];
    }
  }

  /** The first `n` items of a list sorted newest first are sorted newest
      first and are drawn from the list. */
  lemma TakeOfSorted(s: seq<TweetView>, n: int)
    requires SortedDesc(s)
    ensures SortedDesc(Take(s, n))
    ensures multiset(Take(s, n)) <= multiset(s)
  {
    var r := Take(s, n);
    assert s == r + s[|r|..];
    assert multiset(s) == multiset(r) + multiset(s[|r|..]);
  }

  /** The first `n` items of a list sorted newest first are its newest
      items: sorted, drawn from it, and any item left out is no newer than
      the last one kept and is only left out when the taken part is full. */
  lemma TakeIsTop(s: seq<TweetView>, n: int)
    requires SortedDesc(s)
    ensures var r := Take(s, n);
      && |r| <= (if n < 0 then 0 else n)
      && SortedDesc(r)
      && multiset(r) <= multiset(s)
      && forall v :: v in s && v !in r ==>
           |r| == (if n < 0 then 0 else n) && (|r| > 0 ==> r[|r| - 1].createdAt >= v.createdAt)
  {
    TakeOfSorted(s, n);
    forall v | v in s && v !in Take(s, n)
      ensures var r := Take(s, n);
        |r| == (if n < 0 then 0 else n) && (|r| > 0 ==> r[|r| - 1].createdAt >= v.createdAt)
    {
      TakeKeepsNewest(s, n, v);
    }
  }

  /** A rebuilt page holds at most `pageSize` items, newest first, all drawn
      from the join; and any joined item left out is no newer than the last
      item kept, which only happens when the page is full. */
  lemma RebuildPageIsTopOfJoin(store: Store, fid: Guid, pageSize: int)
    ensures var r := RebuildPage(store, fid, pageSize);
      var joined := JoinViews(store.tweets, store.users, FollowedBy(store.follows, fid));
      && |r| <= (if pageSize < 0 then 0 else pageSize)
      && SortedDesc(r)
      && multiset(r) <= multiset(joined)
      && forall v :: v in joined && v !in r ==>
           |r| == (if pageSize < 0 then 0 else pageSize) && (|r| > 0 ==> r[|r| - 1].createdAt >= v.createdAt)
  {
    var joined := JoinViews(store.tweets, store.users, FollowedBy(store.follows, fid));
    var sorted := SortByCreatedDesc(joined);
    TakeIsTop(sorted, pageSize);
    assert forall v :: v in joined ==> v in sorted by {
      forall v | v in joined ensures v in sorted {
        assert v in multiset(joined);
      }
    }
  }

  /* ---------- what one follower's update does ---------- */

  /** The map after one follower's task: prepend with maxPagesToInvalidate 2
      (a thrown exception swallowed), read page 1 again, and, when it is still
      absent, store a page rebuilt from the store, unless the store query
      fails for this follower (`queryFails`), which the task also swallows. */
  function FollowerStep(m: PageMap, store: Store, tweet: TweetView, fid: Guid, pageSize: int,
                        now: int, queryFails: set<Guid>): PageMap
  {
    var page1 := PageKey(UserTimeline(fid), 1, pageSize);
    var prepended := AfterPrepend(m, UserTimeline(fid), tweet, pageSize, 2, now).0;
    var read := AfterRead(prepended, page1, now);
    if IsLive(prepended, page1, now) || fid in queryFails then read
    else Write(read, page1, RebuildPage(store, fid, pageSize), now)
  }

  /** The map after the tasks of `fids`, run in list order. */
  function Fanout(m: PageMap, store: Store, tweet: TweetView, fids: seq<Guid>, pageSize: int,
                  now: int, queryFails: set<Guid>): PageMap
    decreases |fids|
  {
    if fids == [] then m
    else
      var before := Fanout(m, store, tweet, fids[..|fids| - 1], pageSize, now, queryFails);
      FollowerStep(before, store, tweet, fids[|fids| - 1], pageSize, now, queryFails)
  }

  /** A follower's task touches only keys of that follower's timeline. */
  lemma StepStaysInScope(m: PageMap, store: Store, tweet: TweetView, fid: Guid, pageSize: int,
                         now: int, queryFails: set<Guid>, k: PageKey)
    requires k.scope != UserTimeline(fid)
    ensures SameAt(m, FollowerStep(m, store, tweet, fid, pageSize, now, queryFails), k)
  {
    PrependStaysInScope(m, UserTimeline(fid), tweet, pageSize, 2, now, k);
  }

  /** A follower's task reads only keys of that follower's timeline: two maps
      that agree there still agree there afterwards. */
  lemma StepReadsOwnKeys(m1: PageMap, m2: PageMap, store: Store, tweet: TweetView, fid: Guid,
                         pageSize: int, now: int, queryFails: set<Guid>, k: PageKey)
    requires forall k': PageKey :: k'.scope == UserTimeline(fid) ==> SameAt(m1, m2, k')
    requires k.scope == UserTimeline(fid)
    ensures SameAt(FollowerStep(m1, store, tweet, fid, pageSize, now, queryFails),
                   FollowerStep(m2, store, tweet, fid, pageSize, now, queryFails), k)
  {
    var page1 := PageKey(UserTimeline(fid), 1, pageSize);
    assert SameAt(m1, m2, page1) && SameAt(m1, m2, k);
  }

  /** Keys of timelines no listed follower owns come out of the fanout as
      they went in. */
  lemma {:induction false} FanoutOutside(m: PageMap, store: Store, tweet: TweetView, fids: seq<Guid>,
                                         pageSize: int, now: int, queryFails: set<Guid>, k: PageKey)
    requires forall f :: f in fids ==> k.scope != UserTimeline(f)
    ensures SameAt(m, Fanout(m, store, tweet, fids, pageSize, now, queryFails), k)
    decreases |fids|
  {
    if fids != [] {
      var init := fids[..|fids| - 1];
      FanoutOutside(m, store, tweet, init, pageSize, now, queryFails, k);
      var before := Fanout(m, store, tweet, init, pageSize, now, queryFails);
      StepStaysInScope(before, store, tweet, fids[|fids| - 1], pageSize, now, queryFails, k);
    }
  }

  /** With distinct follower ids, each follower's keys end as that follower's
      own task leaves them when run on the original map: the order of the
      followers and what happens to the others do not matter. */
  lemma {:induction false} FanoutAtFollower(m: PageMap, store: Store, tweet: TweetView, fids: seq<Guid>,
                                            pageSize: int, now: int, queryFails: set<Guid>,
                                            f: Guid, k: PageKey)
    requires NoDuplicates(fids) && f in fids && k.scope == UserTimeline(f)
    ensures SameAt(Fanout(m, store, tweet, fids, pageSize, now, queryFails),
                   FollowerStep(m, store, tweet, f, pageSize, now, queryFails), k)
    decreases |fids|
  {
    var init := fids[..|fids| - 1];
    var last := fids[|fids| - 1];
    var before := Fanout(m, store, tweet, init, pageSize, now, queryFails);
    if last == f {
      forall k': PageKey | k'.scope == UserTimeline(f)
        ensures SameAt(before, m, k')
      {
        forall g | g in init
          ensures k'.scope != UserTimeline(g)
        {
          var i :| 0 <= i < |init| && init[i] == g;
          assert fids[i] == g && fids[|fids| - 1] == f;
        }
        FanoutOutside(m, store, tweet, init, pageSize, now, queryFails, k');
      }
      StepReadsOwnKeys(before, m, store, tweet, f, pageSize, now, queryFails, k);
    } else {
      assert f in init by {
        var i :| 0 <= i < |fids| && fids[i] == f;
        assert i < |fids| - 1;
        assert init[i] == f;
      }
      assert NoDuplicates(init) by {
        forall i, j | 0 <= i < j < |init| ensures init[i] != init[j] {
          assert init[i] == fids[i] && init[j] == fids[j];
        }
      }
      FanoutAtFollower(m, store, tweet, init, pageSize, now, queryFails, f, k);
      StepStaysInScope(before, store, tweet, last, pageSize, now, queryFails, k);
    }
  }

  /** A follower whose page 1 was live gets the tweet prepended to it with a
      fresh TTL and loses page 2 of the same size; no rebuild happens and no
      other key of theirs changes. */
  lemma StepWithCachedPage(m: PageMap, store: Store, tweet: TweetView, fid: Guid, pageSize: int,
                           now: int, queryFails: set<Guid>)
    requires IsLive(m, PageKey(UserTimeline(fid), 1, pageSize), now) && pageSize >= 0
    ensures var m' := FollowerStep(m, store, tweet, fid, pageSize, now, queryFails);
      var page1 := PageKey(UserTimeline(fid), 1, pageSize);
      && page1 in m'
      && m'[page1] == Entry(PrependPage(m[page1].data, tweet, pageSize), now + Ttl)
      && PageKey(UserTimeline(fid), 2, pageSize) !in m'
      && forall k :: k != page1 && k != PageKey(UserTimeline(fid), 2, pageSize) ==> SameAt(m, m', k)
  {
    PrependRewritesPage1(m, UserTimeline(fid), tweet, pageSize, 2, now);
  }

  /** A follower without a live page 1 gets page 1 rebuilt from the store,
      with a fresh TTL; no other key of theirs changes. */
  lemma StepWithoutCachedPage(m: PageMap, store: Store, tweet: TweetView, fid: Guid, pageSize: int,
                              now: int, queryFails: set<Guid>)
    requires !IsLive(m, PageKey(UserTimeline(fid), 1, pageSize), now) && fid !in queryFails
    ensures var m' := FollowerStep(m, store, tweet, fid, pageSize, now, queryFails);
      var page1 := PageKey(UserTimeline(fid), 1, pageSize);
      && page1 in m'
      && m'[page1] == Entry(RebuildPage(store, fid, pageSize), now + Ttl)
      && forall k :: k != page1 ==> SameAt(m, m', k)
  {
    PrependWithoutPage1(m, UserTimeline(fid), tweet, pageSize, 2, now);
  }

  /** A follower whose rebuild query fails is left without page 1, and no
      other key of theirs changes. */
  lemma StepWhenQueryFails(m: PageMap, store: Store, tweet: TweetView, fid: Guid, pageSize: int,
                           now: int, queryFails: set<Guid>)
    requires !IsLive(m, PageKey(UserTimeline(fid), 1, pageSize), now) && fid in queryFails
    ensures var m' := FollowerStep(m, store, tweet, fid, pageSize, now, queryFails);
      && PageKey(UserTimeline(fid), 1, pageSize) !in m'
      && forall k :: k != PageKey(UserTimeline(fid), 1, pageSize) ==> SameAt(m, m', k)
  {
    PrependWithoutPage1(m, UserTimeline(fid), tweet, pageSize, 2, now);
  }

  /** A negative page size with a live page 1 makes the prepend throw (the
      task swallows it) and the page is still found, so nothing changes. */
  lemma StepWithNegativePageSize(m: PageMap, store: Store, tweet: TweetView, fid: Guid, pageSize: int,
                                 now: int, queryFails: set<Guid>)
    requires IsLive(m, PageKey(UserTimeline(fid), 1, pageSize), now) && pageSize < 0
    ensures FollowerStep(m, store, tweet, fid, pageSize, now, queryFails) == m
  {
  }

  /* ---------- the fanout, proved ---------- */

  /** After the fanout of `tweet`, every follower of its author has page 1
      equal to the old page with the tweet prepended (when page 1 was live),
      kept as it was (when it was live but the page size is negative, so the
      prepend threw), or rebuilt from the store (when it was not live and the
      rebuild query succeeded). */
  lemma FanoutReachesEveryFollower(m: PageMap, store: Store, tweet: TweetView, pageSize: int,
                                   now: int, queryFails: set<Guid>, f: Guid)
    requires NoDuplicates(store.follows) && Follow(tweet.userId, f) in store.follows
    ensures var fids := FollowerIdsOf(store.follows, tweet.userId);
      var m' := Fanout(m, store, tweet, fids, pageSize, now, queryFails);
      var page1 := PageKey(UserTimeline(f), 1, pageSize);
      && (IsLive(m, page1, now) && pageSize >= 0 ==>
            page1 in m' && m'[page1] == Entry(PrependPage(m[page1].data, tweet, pageSize), now + Ttl))
      && (IsLive(m, page1, now) && pageSize < 0 ==> page1 in m' && m'[page1] == m[page1])
      && (!IsLive(m, page1, now) && f !in queryFails ==>
            page1 in m' && m'[page1] == Entry(RebuildPage(store, f, pageSize), now + Ttl))
      && (!IsLive(m, page1, now) && f in queryFails ==> page1 !in m')
  {
    var fids := FollowerIdsOf(store.follows, tweet.userId);
    var page1 := PageKey(UserTimeline(f), 1, pageSize);
    FollowerIdsExact(store.follows, tweet.userId);
    FollowerIdsDistinct(store.follows, tweet.userId);
    FanoutAtFollower(m, store, tweet, fids, pageSize, now, queryFails, f, page1);
    if IsLive(m, page1, now) && pageSize >= 0 {
      StepWithCachedPage(m, store, tweet, f, pageSize, now, queryFails);
    } else if IsLive(m, page1, now) {
      StepWithNegativePageSize(m, store, tweet, f, pageSize, now, queryFails);
    } else if f !in queryFails {
      StepWithoutCachedPage(m, store, tweet, f, pageSize, now, queryFails);
    } else {
      StepWhenQueryFails(m, store, tweet, f, pageSize, now, queryFails);
    }
  }

  /** Of a follower's other keys, only page 2 of the same page size can be
      removed: pages 3 and beyond and pages of other sizes are untouched. */
  lemma FanoutInvalidatesAtMostPage2(m: PageMap, store: Store, tweet: TweetView, pageSize: int,
                                     now: int, queryFails: set<Guid>, f: Guid, k: PageKey)
    requires NoDuplicates(store.follows) && Follow(tweet.userId, f) in store.follows
    requires k.scope == UserTimeline(f) && k != PageKey(UserTimeline(f), 1, pageSize) && k != PageKey(UserTimeline(f), 2, pageSize)
    ensures SameAt(m, Fanout(m, store, tweet, FollowerIdsOf(store.follows, tweet.userId), pageSize, now, queryFails), k)
  {
    var fids := FollowerIdsOf(store.follows, tweet.userId);
    var page1 := PageKey(UserTimeline(f), 1, pageSize);
    FollowerIdsExact(store.follows, tweet.userId);
    FollowerIdsDistinct(store.follows, tweet.userId);
    FanoutAtFollower(m, store, tweet, fids, pageSize, now, queryFails, f, k);
    if IsLive(m, page1, now) {
      if pageSize >= 0 {
        StepWithCachedPage(m, store, tweet, f, pageSize, now, queryFails);
      }
    } else if f !in queryFails {
      StepWithoutCachedPage(m, store, tweet, f, pageSize, now, queryFails);
    } else {
      StepWhenQueryFails(m, store, tweet, f, pageSize, now, queryFails);
    }
  }

  /** Global pages and the pages of users who do not follow the author are
      left as they were. */
  lemma FanoutLeavesOthersAlone(m: PageMap, store: Store, tweet: TweetView, pageSize: int,
                                now: int, queryFails: set<Guid>, k: PageKey)
    requires k.scope.Global? || Follow(tweet.userId, k.scope.userId) !in store.follows
    ensures SameAt(m, Fanout(m, store, tweet, FollowerIdsOf(store.follows, tweet.userId), pageSize, now, queryFails), k)
  {
    var fids := FollowerIdsOf(store.follows, tweet.userId);
    FollowerIdsExact(store.follows, tweet.userId);
    FanoutOutside(m, store, tweet, fids, pageSize, now, queryFails, k);
  }

  /** Failures are isolated: a follower whose own query succeeds ends exactly
      as if no follower's query had failed. */
  lemma FanoutIsolatesFailures(m: PageMap, store: Store, tweet: TweetView, pageSize: int,
                               now: int, queryFails: set<Guid>, f: Guid, k: PageKey)
    requires NoDuplicates(store.follows) && Follow(tweet.userId, f) in store.follows
    requires f !in queryFails && k.scope == UserTimeline(f)
    ensures var fids := FollowerIdsOf(store.follows, tweet.userId);
      SameAt(Fanout(m, store, tweet, fids, pageSize, now, queryFails),
             Fanout(m, store, tweet, fids, pageSize, now, {}), k)
  {
    var fids := FollowerIdsOf(store.follows, tweet.userId);
    FollowerIdsExact(store.follows, tweet.userId);
    FollowerIdsDistinct(store.follows, tweet.userId);
    FanoutAtFollower(m, store, tweet, fids, pageSize, now, queryFails, f, k);
    FanoutAtFollower(m, store, tweet, fids, pageSize, now, {}, f, k);
    assert FollowerStep(m, store, tweet, f, pageSize, now, queryFails)
        == FollowerStep(m, store, tweet, f, pageSize, now, {});
  }

  /* ---------- the updater ---------- */

  /** One follower's task. */
  method UpdateFollower(cache: TweetCacheService, store: Store, tweet: TweetView, fid: Guid,
                        pageSize: int, now: int, queryFails: set<Guid>)
    modifies cache
    ensures cache.localCache == FollowerStep(old(cache.localCache), store, tweet, fid, pageSize, now, queryFails)
  {
    // an exception thrown by the prepend (PageSizeOutOfRange) is swallowed
    var outcome := cache.PrependTweetToUser(fid, tweet, pageSize, 2, now);
    var cached := cache.GetUserTweetPage(fid, 1, pageSize, now);
    if cached.None? && fid !in queryFails {
      var followedByFollower := FollowedBy(store.follows, fid);
      var joined := JoinViews(store.tweets, store.users, followedByFollower);
      var page := Take(SortByCreatedDesc(joined), pageSize);
      cache.SetUserTweetPage(fid, 1, pageSize, page, now);
    }
  }

  /** UpdateFollowersCacheAsync: lists the author's followers in store order
      and runs each follower's task. */
  method UpdateFollowersCache(cache: TweetCacheService, store: Store, tweet: TweetView,
                              pageSize: int, now: int, queryFails: set<Guid>)
    modifies cache
    ensures cache.localCache == Fanout(old(cache.localCache), store, tweet,
                                       FollowerIdsOf(store.follows, tweet.userId), pageSize, now, queryFails)
  {
    var followerIds := FollowerIdsOf(store.follows, tweet.userId);
    var i := 0;
    while i < |followerIds|
      invariant 0 <= i <= |followerIds|
      invariant cache.localCache == Fanout(old(cache.localCache), store, tweet, followerIds[..i], pageSize, now, queryFails)
    {
      assert followerIds[..i + 1][..i] == followerIds[..i];
      UpdateFollower(cache, store, tweet, followerIds[i], pageSize, now, queryFails);
      i := i + 1;
    }
    assert followerIds[..i] == followerIds;
  }
}
