/** The tweet page cache (InMemoryTweetCacheService): one process-wide map
    from page keys to cached timeline pages with an absolute expiration.
    Keys name either a page of the global feed or a page of one user's
    timeline, always together with the page size they were cut with. */
module TweetCache {
  import opened Common
  import opened KeyFormat
  import opened TtlStore

  /** Whose timeline a page belongs to. */
  datatype Scope = Global | UserTimeline(userId: Guid)

  /** The coordinates a cache key is built from. */
  datatype PageKey = PageKey(scope: Scope, page: int, size: int)

  type Page = seq<TweetView>

  type PageMap = map<PageKey, Entry<Page>>

  const GlobalPrefix: string := "tweets:page:"
  const UserPrefix: string := "usertweets:"

  /** ":page:{page}:size:{size}", the tail both key shapes share. */
  function Coordinates(page: int, size: int): string
  {
    ":page:" + IntDecimal(page) + ":size:" + IntDecimal(size)
  }

  /** The string under which the service stores a page:
      "tweets:page:{p}:size:{s}" or "usertweets:{uid}:page:{p}:size:{s}". */
  function Render(k: PageKey): string
  {
    match k.scope
    case Global => "tweets" + Coordinates(k.page, k.size)
    case UserTimeline(u) => UserPrefix + GuidString(u) + Coordinates(k.page, k.size)
  }

  /** Regrouping of the key tail so that its ':' separators can be split off. */
  lemma CoordinatesShape(page: int, size: int)
    ensures Coordinates(page, size) == ":page:" + (IntDecimal(page) + (":" + ("size:" + IntDecimal(size))))
  {
    var s := IntDecimal(size);
    assert ":size:" + s == ":" + ("size:" + s);
  }

  lemma CoordinatesInjective(p1: int, s1: int, p2: int, s2: int)
    requires Coordinates(p1, s1) == Coordinates(p2, s2)
    ensures p1 == p2 && s1 == s2
  {
    var d1, d2 := IntDecimal(p1), IntDecimal(p2);
    var t1, t2 := "size:" + IntDecimal(s1), "size:" + IntDecimal(s2);
    CoordinatesShape(p1, s1);
    CoordinatesShape(p2, s2);
    DropPrefix(":page:", d1 + (":" + t1), d2 + (":" + t2));
    IntDecimalColonFree(p1);
    IntDecimalColonFree(p2);
    SplitAtColon(d1, t1, d2, t2);
    IntDecimalInjective(p1, p2);
    DropPrefix("size:", IntDecimal(s1), IntDecimal(s2));
    IntDecimalInjective(s1, s2);
  }

  lemma UserKeyShape(u: Guid, page: int, size: int)
    ensures Render(PageKey(UserTimeline(u), page, size))
         == UserPrefix + (GuidString(u) + (":" + Coordinates(page, size)[1..]))
  {
    var c := Coordinates(page, size);
    assert c == ":" + c[1..];
  }

  /** Global keys start with 't', user keys with 'u'. */
  lemma FirstCharOfKey(k: PageKey)
    ensures |Render(k)| > 0 && Render(k)[0] == if k.scope.Global? then 't' else 'u'
  {
  }

  /** Distinct page keys are stored under distinct strings, so a map keyed by
      PageKey behaves as the string-keyed dictionary does. */
  lemma RenderInjective(a: PageKey, b: PageKey)
    requires Render(a) == Render(b)
    ensures a == b
  {
    FirstCharOfKey(a);
    FirstCharOfKey(b);
    match (a.scope, b.scope)
    case (Global, Global) =>
      DropPrefix("tweets", Coordinates(a.page, a.size), Coordinates(b.page, b.size));
      CoordinatesInjective(a.page, a.size, b.page, b.size);
    case (UserTimeline(u), UserTimeline(v)) =>
      var ta, tb := Coordinates(a.page, a.size)[1..], Coordinates(b.page, b.size)[1..];
      UserKeyShape(u, a.page, a.size);
      UserKeyShape(v, b.page, b.size);
      DropPrefix(UserPrefix, GuidString(u) + (":" + ta), GuidString(v) + (":" + tb));
      GuidStringColonFree(u);
      GuidStringColonFree(v);
      SplitAtColon(GuidString(u), ta, GuidString(v), tb);
      GuidStringInjective(u, v);
      assert Coordinates(a.page, a.size) == ":" + ta && Coordinates(b.page, b.size) == ":" + tb;
      CoordinatesInjective(a.page, a.size, b.page, b.size);
    case (Global, UserTimeline(_)) =>
    case (UserTimeline(_), Global) =>
  }

  /* ---------- prepend to page 1 ---------- */

  /** What becomes of a page-1 payload: the tweet at the front, the page
      truncated to `pageSize` items. */
  function PrependPage(page: Page, tweet: TweetView, pageSize: nat): (r: Page)
    ensures |r| == if |page| + 1 <= pageSize then |page| + 1 else pageSize
    ensures pageSize > 0 ==> r[0] == tweet && r[1..] <= page
  {
    var inserted := [tweet] + page;
    if |inserted| > pageSize then inserted[..pageSize] else inserted
  }

  /** `k` is one of pages 2..last of the same timeline and page size. */
  predicate Deeper(k: PageKey, scope: Scope, size: int, last: int)
  {
    k.scope == scope && k.size == size && 2 <= k.page <= last
  }

  function RemoveDeeper(m: PageMap, scope: Scope, size: int, last: int): PageMap
  {
    map k | k in m && !Deeper(k, scope, size, last) :: m[k]
  }

  lemma RemoveDeeperStep(m: PageMap, scope: Scope, size: int, p: int)
    requires 2 <= p
    ensures RemoveDeeper(m, scope, size, p - 1) - {PageKey(scope, p, size)} == RemoveDeeper(m, scope, size, p)
  {
  }

  lemma RemoveNothingDeeper(m: PageMap, scope: Scope, size: int, last: int)
    requires last < 2
    ensures RemoveDeeper(m, scope, size, last) == m
  {
  }

  /** How a prepend ends: page 1 rewritten, page 1 not cached (nothing to
      prepend to), or List.RemoveRange rejecting a negative page size. */
  datatype PrependOutcome = Prepended | Page1Absent | PageSizeOutOfRange

  /** The map after a prepend, and how it ended. */
  function AfterPrepend(m: PageMap, scope: Scope, tweet: TweetView, pageSize: int,
                        maxPagesToInvalidate: int, now: int): (PageMap, PrependOutcome)
  {
    var page1 := PageKey(scope, 1, pageSize);
    if !IsLive(m, page1, now) then (AfterRead(m, page1, now), Page1Absent)
    else if pageSize < 0 then (m, PageSizeOutOfRange)
    else
      var written := Write(m, page1, PrependPage(m[page1].data, tweet, pageSize), now);
      (RemoveDeeper(written, scope, pageSize, maxPagesToInvalidate), Prepended)
  }

  /** With page 1 live, the prepend stores the new page with a fresh TTL and
      removes exactly pages 2..maxPagesToInvalidate of the same timeline and
      page size; every other key keeps its entry. */
  lemma PrependRewritesPage1(m: PageMap, scope: Scope, tweet: TweetView, pageSize: int,
                             maxPagesToInvalidate: int, now: int)
    requires IsLive(m, PageKey(scope, 1, pageSize), now) && pageSize >= 0
    ensures var (m', outcome) := AfterPrepend(m, scope, tweet, pageSize, maxPagesToInvalidate, now);
      var page1 := PageKey(scope, 1, pageSize);
      && outcome == Prepended
      && page1 in m'
      && m'[page1] == Entry(PrependPage(m[page1].data, tweet, pageSize), now + Ttl)
      && (forall k :: k != page1 ==>
            (k in m' <==> k in m && !Deeper(k, scope, pageSize, maxPagesToInvalidate)))
      && (forall k :: k != page1 && k in m' ==> m'[k] == m[k])
  {
  }

  /** Nothing but page 1 changes when maxPagesToInvalidate is below 2. */
  lemma PrependWithoutInvalidation(m: PageMap, scope: Scope, tweet: TweetView, pageSize: int,
                                   maxPagesToInvalidate: int, now: int)
    requires maxPagesToInvalidate < 2
    ensures var (m', _) := AfterPrepend(m, scope, tweet, pageSize, maxPagesToInvalidate, now);
      forall k :: k != PageKey(scope, 1, pageSize) ==> SameAt(m, m', k)
  {
  }

  /** With page 1 absent or expired, the prepend stores nothing and removes no
      other page: the only change is the eviction of an expired page 1. */
  lemma PrependWithoutPage1(m: PageMap, scope: Scope, tweet: TweetView, pageSize: int,
                            maxPagesToInvalidate: int, now: int)
    requires !IsLive(m, PageKey(scope, 1, pageSize), now)
    ensures var (m', outcome) := AfterPrepend(m, scope, tweet, pageSize, maxPagesToInvalidate, now);
      && outcome == Page1Absent
      && PageKey(scope, 1, pageSize) !in m'
      && forall k :: k != PageKey(scope, 1, pageSize) ==> SameAt(m, m', k)
  {
  }

  /** A negative page size makes List.RemoveRange throw before anything is
      written, so the map is left as it was. */
  lemma PrependRejectsNegativePageSize(m: PageMap, scope: Scope, tweet: TweetView, pageSize: int,
                                      maxPagesToInvalidate: int, now: int)
    requires IsLive(m, PageKey(scope, 1, pageSize), now) && pageSize < 0
    ensures AfterPrepend(m, scope, tweet, pageSize, maxPagesToInvalidate, now) == (m, PageSizeOutOfRange)
  {
  }

  /** A prepend only ever touches keys of its own timeline and page size. */
  lemma PrependStaysInScope(m: PageMap, scope: Scope, tweet: TweetView, pageSize: int,
                            maxPagesToInvalidate: int, now: int, k: PageKey)
    requires k.scope != scope || k.size != pageSize
    ensures SameAt(m, AfterPrepend(m, scope, tweet, pageSize, maxPagesToInvalidate, now).0, k)
  {
  }

  /** Prepending a tweet no older than the head keeps a page newest first. */
  lemma PrependKeepsSorted(page: Page, tweet: TweetView, pageSize: nat)
    requires SortedDesc(page)
    requires |page| > 0 ==> tweet.createdAt >= page[0].createdAt
    ensures SortedDesc(PrependPage(page, tweet, pageSize))
  {
    var inserted := [tweet] + page;
    forall i, j | 0 <= i < j < |inserted|
      ensures inserted[i].createdAt >= inserted[j].createdAt
    {
      if i == 0 {
        assert inserted[j] == page[j - 1];
      } else {
        assert inserted[i] == page[i - 1] && inserted[j] == page[j - 1];
      }
    }
  }

  /** The page after prepending `tweets` one after the other. */
  function PrependAll(page: Page, tweets: seq<TweetView>, pageSize: nat): Page
    decreases |tweets|
  {
    if tweets == [] then page else PrependAll(PrependPage(page, tweets[0], pageSize), tweets[1..], pageSize)
  }

  /** Tweets listed in the order they were created (oldest first). */
  predicate CreatedInOrder(tweets: seq<TweetView>)
  {
    forall i, j :: 0 <= i < j < |tweets| ==> tweets[i].createdAt <= tweets[j].createdAt
  }

  /** Any run of prepends of successively newer tweets onto a page of at most
      `pageSize` items, sorted newest first, leaves a page that is still at
      most `pageSize` long and still sorted newest first. */
  lemma {:induction false} PrependAllBoundedAndSorted(page: Page, tweets: seq<TweetView>, pageSize: nat)
    requires |page| <= pageSize && SortedDesc(page)
    requires CreatedInOrder(tweets)
    requires |page| > 0 && |tweets| > 0 ==> tweets[0].createdAt >= page[0].createdAt
    ensures |PrependAll(page, tweets, pageSize)| <= pageSize
    ensures SortedDesc(PrependAll(page, tweets, pageSize))
    decreases |tweets|
  {
    if tweets != [] {
      var next := PrependPage(page, tweets[0], pageSize);
      PrependKeepsSorted(page, tweets[0], pageSize);
      var rest := tweets[1..];
      assert |next| > 0 && |rest| > 0 ==> rest[0].createdAt >= next[0].createdAt by {
        if |next| > 0 && |rest| > 0 {
          assert next[0] == tweets[0] && rest[0] == tweets[1];
        }
      }
      PrependAllBoundedAndSorted(next, rest, pageSize);
    }
  }

  /* ---------- invalidate all ---------- */

  const SweepMaxPages: int := 10
  const SweepPageSize: int := 30

  /** Keys the bounded loop of InvalidateAllPages names: global pages 1..10
      cut at size 30. */
  predicate InFixedSweep(k: PageKey)
  {
    k.scope == Global && k.size == SweepPageSize && 1 <= k.page <= SweepMaxPages
  }

  /** The prefix test of the fallback sweep. */
  predicate HasPagePrefix(k: PageKey)
  {
    GlobalPrefix <= Render(k) || UserPrefix <= Render(k)
  }

  function AfterInvalidateAll(m: PageMap): PageMap
  {
    map k | k in m && !InFixedSweep(k) && !HasPagePrefix(k) :: m[k]
  }

  /** The map once the bounded loop has removed global pages 1..upto-1 of size 30. */
  function FixedSweepBelow(m: PageMap, upto: int): PageMap
  {
    map k | k in m && !(InFixedSweep(k) && k.page < upto) :: m[k]
  }

  /** The map once the fallback loop has visited every key but `remaining`. */
  function PrefixSweepOutside(m: PageMap, remaining: set<PageKey>): PageMap
  {
    map k | k in m && !(k !in remaining && HasPagePrefix(k)) :: m[k]
  }

  lemma FixedSweepStep(m: PageMap, p: int)
    requires 1 <= p <= SweepMaxPages
    ensures FixedSweepBelow(m, p) - {PageKey(Global, p, SweepPageSize)} == FixedSweepBelow(m, p + 1)
  {
  }

  lemma PrefixSweepStep(m: PageMap, remaining: set<PageKey>, key: PageKey)
    requires key in remaining
    ensures PrefixSweepOutside(m, remaining - {key})
         == if HasPagePrefix(key) then PrefixSweepOutside(m, remaining) - {key}
            else PrefixSweepOutside(m, remaining)
  {
  }

  lemma InvalidateAllInTwoSweeps(m: PageMap)
    ensures PrefixSweepOutside(FixedSweepBelow(m, SweepMaxPages + 1), {}) == AfterInvalidateAll(m)
  {
  }

  /** Every key the service builds starts with one of the swept prefixes. */
  lemma EveryKeyHasPagePrefix(k: PageKey)
    ensures HasPagePrefix(k)
  {
    match k.scope
    case Global =>
      var y := IntDecimal(k.page) + (":" + ("size:" + IntDecimal(k.size)));
      CoordinatesShape(k.page, k.size);
      assert "tweets" + (":page:" + y) == GlobalPrefix + y;
      assert Render(k)[..|GlobalPrefix|] == GlobalPrefix;
    case UserTimeline(u) =>
      UserKeyShape(u, k.page, k.size);
      assert Render(k)[..|UserPrefix|] == UserPrefix;
  }

  /** After InvalidateAllPages no page key is left: the prefix sweep catches
      every key the bounded loop missed. */
  lemma InvalidateAllEmpties(m: PageMap)
    ensures AfterInvalidateAll(m) == map[]
  {
    forall k | k in m
      ensures HasPagePrefix(k)
    {
      EveryKeyHasPagePrefix(k);
    }
  }

  /* ---------- the service ---------- */

  class TweetCacheService {
    /** The shared `_localCache` dictionary. */
    var localCache: PageMap

    constructor()
      ensures localCache == map[]
    {
      localCache := map[];
    }

    /** Looks a key up; an entry found expired is removed. */
    method TryGetValid(key: PageKey, now: int) returns (found: bool, data: Page)
      modifies this
      ensures found == IsLive(old(localCache), key, now)
      ensures data == if found then old(localCache)[key].data else []
      ensures localCache == AfterRead(old(localCache), key, now)
    {
      data := [];
      if key in localCache {
        var entry := localCache[key];
        if entry.expiration > now {
          data := entry.data;
          return true, data;
        }
        localCache := localCache - {key};
      }
      return false, data;
    }

    method GetTweetPage(page: int, pageSize: int, now: int) returns (r: Option<Page>)
      modifies this
      ensures r == Read(old(localCache), PageKey(Global, page, pageSize), now)
      ensures localCache == AfterRead(old(localCache), PageKey(Global, page, pageSize), now)
    {
      var found, data := TryGetValid(PageKey(Global, page, pageSize), now);
      r := if found then Some(data) else None;
    }

    method SetTweetPage(page: int, pageSize: int, tweets: Page, now: int)
      modifies this
      ensures localCache == Write(old(localCache), PageKey(Global, page, pageSize), tweets, now)
    {
      localCache := localCache[PageKey(Global, page, pageSize) := Entry(tweets, now + Ttl)];
    }

    method GetUserTweetPage(userId: Guid, page: int, pageSize: int, now: int) returns (r: Option<Page>)
      modifies this
      ensures r == Read(old(localCache), PageKey(UserTimeline(userId), page, pageSize), now)
      ensures localCache == AfterRead(old(localCache), PageKey(UserTimeline(userId), page, pageSize), now)
    {
      var found, data := TryGetValid(PageKey(UserTimeline(userId), page, pageSize), now);
      r := if found then Some(data) else None;
    }

    method SetUserTweetPage(userId: Guid, page: int, pageSize: int, tweets: Page, now: int)
      modifies this
      ensures localCache == Write(old(localCache), PageKey(UserTimeline(userId), page, pageSize), tweets, now)
    {
      localCache := localCache[PageKey(UserTimeline(userId), page, pageSize) := Entry(tweets, now + Ttl)];
    }

    /** The algorithm shared by PrependTweetAsync and PrependTweetToUserAsync. */
    method PrependToPage1(scope: Scope, tweet: TweetView, pageSize: int, maxPagesToInvalidate: int, now: int)
      returns (outcome: PrependOutcome)
      modifies this
      ensures (localCache, outcome) == AfterPrepend(old(localCache), scope, tweet, pageSize, maxPagesToInvalidate, now)
    {
      var page1Key := PageKey(scope, 1, pageSize);
      var found, page1 := TryGetValid(page1Key, now);
      if !found {
        return Page1Absent;
      }
      if pageSize < 0 {
        return PageSizeOutOfRange;
      }
      assert localCache == old(localCache);
      page1 := [tweet] + page1;
      if |page1| > pageSize {
        page1 := page1[..pageSize];
      }
      localCache := localCache[page1Key := Entry(page1, now + Ttl)];

      ghost var written := localCache;
      var p := 2;
      while p <= maxPagesToInvalidate
        invariant 2 <= p && (p <= maxPagesToInvalidate + 1 || p == 2)
        invariant localCache == RemoveDeeper(written, scope, pageSize, p - 1)
      {
        RemoveDeeperStep(written, scope, pageSize, p);
        localCache := localCache - {PageKey(scope, p, pageSize)};
        p := p + 1;
      }
      if maxPagesToInvalidate < 2 {
        RemoveNothingDeeper(written, scope, pageSize, 1);
        RemoveNothingDeeper(written, scope, pageSize, maxPagesToInvalidate);
      }
      return Prepended;
    }

    method PrependTweet(tweet: TweetView, pageSize: int, maxPagesToInvalidate: int, now: int)
      returns (outcome: PrependOutcome)
      modifies this
      ensures (localCache, outcome) == AfterPrepend(old(localCache), Global, tweet, pageSize, maxPagesToInvalidate, now)
    {
      outcome := PrependToPage1(Global, tweet, pageSize, maxPagesToInvalidate, now);
    }

    method PrependTweetToUser(userId: Guid, tweet: TweetView, pageSize: int, maxPagesToInvalidate: int, now: int)
      returns (outcome: PrependOutcome)
      modifies this
      ensures (localCache, outcome) == AfterPrepend(old(localCache), UserTimeline(userId), tweet, pageSize, maxPagesToInvalidate, now)
    {
      outcome := PrependToPage1(UserTimeline(userId), tweet, pageSize, maxPagesToInvalidate, now);
    }

    /** Removes global pages 1..10 of size 30, then every key whose string
        form starts with "tweets:page:" or "usertweets:". */
    method InvalidateAllPages()
      modifies this
      ensures localCache == AfterInvalidateAll(old(localCache))
    {
      ghost var start := localCache;
      var maxPages := SweepMaxPages;
      var p := 1;
      while p <= maxPages
        invariant 1 <= p <= maxPages + 1
        invariant localCache == FixedSweepBelow(start, p)
      {
        FixedSweepStep(start, p);
        localCache := localCache - {PageKey(Global, p, SweepPageSize)};
        p := p + 1;
      }

      ghost var bounded := localCache;
      var fallbackKeys := localCache.Keys;
      var remaining := fallbackKeys;
      while remaining != {}
        invariant remaining <= fallbackKeys
        invariant localCache == PrefixSweepOutside(bounded, remaining)
        decreases remaining
      {
        var key :| key in remaining;
        PrefixSweepStep(bounded, remaining, key);
        if GlobalPrefix <= Render(key) || UserPrefix <= Render(key) {
          localCache := localCache - {key};
        }
        remaining := remaining - {key};
      }
      InvalidateAllInTwoSweeps(start);
    }
  }

  /** A page stored for a user's timeline is read back, unchanged, under the
      same user, page number and page size until the TTL has elapsed, and is
      absent (and evicted) from then on; every other key, including the same
      page under another user, number or size, is as it was. */
  method SetThenGetUserTweetPage(cache: TweetCacheService, userId: Guid, page: int, pageSize: int,
                                 tweets: Page, now: int, later: int) returns (r: Option<Page>)
    requires now <= later
    modifies cache
    ensures later < now + Ttl ==> r == Some(tweets)
    ensures later >= now + Ttl ==> r == None && PageKey(UserTimeline(userId), page, pageSize) !in cache.localCache
    ensures forall k :: k != PageKey(UserTimeline(userId), page, pageSize) ==>
      SameAt(old(cache.localCache), cache.localCache, k)
  {
    cache.SetUserTweetPage(userId, page, pageSize, tweets, now);
    r := cache.GetUserTweetPage(userId, page, pageSize, later);
  }

  /** The same round trip for a page of the global feed. */
  method SetThenGetTweetPage(cache: TweetCacheService, page: int, pageSize: int,
                             tweets: Page, now: int, later: int) returns (r: Option<Page>)
    requires now <= later
    modifies cache
    ensures later < now + Ttl ==> r == Some(tweets)
    ensures later >= now + Ttl ==> r == None && PageKey(Global, page, pageSize) !in cache.localCache
    ensures forall k :: k != PageKey(Global, page, pageSize) ==>
      SameAt(old(cache.localCache), cache.localCache, k)
  {
    cache.SetTweetPage(page, pageSize, tweets, now);
    r := cache.GetTweetPage(page, pageSize, later);
  }
}
