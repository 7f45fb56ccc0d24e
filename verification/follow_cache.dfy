/** The follower-id cache (InMemoryFollowCacheService): a second
    process-wide map, separate from the tweet page cache, from
    "followers:{userId}" to the list of that user's follower ids with an
    absolute expiration. */
module FollowCache {
  import opened Common
  import opened KeyFormat
  import opened TtlStore
  import TweetCache

  type FollowerMap = map<Guid, Entry<seq<Guid>>>

  const FollowersPrefix: string := "followers:"

  /** The string under which a user's follower ids are stored. */
  function Key(userId: Guid): string
  {
    FollowersPrefix + GuidString(userId)
  }

  /** Distinct users have distinct keys, so a map keyed by the user id
      behaves as the string-keyed dictionary does. */
  lemma KeyInjective(a: Guid, b: Guid)
    requires Key(a) == Key(b)
    ensures a == b
  {
    DropPrefix(FollowersPrefix, GuidString(a), GuidString(b));
    GuidStringInjective(a, b);
  }

  class FollowCacheService {
    /** The shared `_localCache` dictionary of this service. */
    var localCache: FollowerMap

    constructor()
      ensures localCache == map[]
    {
      localCache := map[];
    }

    /** The cached ids while the entry is live; an expired entry is removed
        and reported absent, and a missing one leaves the map unchanged. */
    method GetFollowerIds(userId: Guid, now: int) returns (r: Option<seq<Guid>>)
      modifies this
      ensures r == Read(old(localCache), userId, now)
      ensures localCache == AfterRead(old(localCache), userId, now)
    {
      if userId in localCache {
        var entry := localCache[userId];
        if entry.expiration > now {
          return Some(entry.data);
        }
        localCache := localCache - {userId};
      }
      return None;
    }

    /** Stores the ids, replacing any earlier entry, for five minutes. */
    method SetFollowerIds(userId: Guid, followerIds: seq<Guid>, now: int)
      modifies this
      ensures localCache == Write(old(localCache), userId, followerIds, now)
    {
      var expiration := now + Ttl;
      localCache := localCache[userId := Entry(followerIds, expiration)];
    }

    /** Removes this user's entry and no other. */
    method InvalidateFollowers(userId: Guid)
      modifies this
      ensures userId !in localCache
      ensures forall u :: u != userId ==> SameAt(old(localCache), localCache, u)
    {
      localCache := localCache - {userId};
    }
  }

  /** Ids stored for a user are read back, in the same order, until the TTL
      has elapsed; from then on they are absent and the read evicts them. */
  method SetThenGetFollowerIds(cache: FollowCacheService, userId: Guid, ids: seq<Guid>, now: int, later: int)
    returns (r: Option<seq<Guid>>)
    requires now <= later
    modifies cache
    ensures later < now + Ttl ==> r == Some(ids)
    ensures later >= now + Ttl ==> r == None && userId !in cache.localCache
    ensures forall u :: u != userId ==> SameAt(old(cache.localCache), cache.localCache, u)
  {
    cache.SetFollowerIds(userId, ids, now);
    r := cache.GetFollowerIds(userId, later);
  }

  /** The two services keep separate maps: nothing the tweet page cache does,
      invalidating every page included, touches a follower-id entry. */
  method TweetCacheLeavesFollowerIds(tweets: TweetCache.TweetCacheService, followers: FollowCacheService,
                                     tweet: TweetView, userId: Guid, pageSize: int, now: int)
    modifies tweets
    ensures followers.localCache == old(followers.localCache)
  {
    var outcome := tweets.PrependTweetToUser(userId, tweet, pageSize, 3, now);
    tweets.InvalidateAllPages();
  }
}
