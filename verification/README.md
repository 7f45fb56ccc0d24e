# TwitterUala timeline caches, in Dafny

A model of the in-process caching core of the TwitterUala API and of its two
request validators:

- **The tweet page cache** (`InMemoryTweetCacheService`). One process-wide
  map goes from page keys to cached pages of tweet views. Each entry has an
  absolute expiration five minutes after it was written. Reads treat an
  entry as present only while its expiration is strictly later than now, and
  remove an entry they find expired. The service stores and reads pages of
  the global feed and of a user's timeline. It prepends a new tweet to page 1
  and drops the deeper pages of the same timeline and page size. It also
  invalidates every page.
- **The follower-id cache** (`InMemoryFollowCacheService`). A second,
  separate map goes from a user id to that user's follower ids, with the same
  expiry rules.
- **The fanout updater** (`UpdateFollowersCacheAsync`). When a tweet is
  created, every follower of its author gets the tweet prepended to their
  cached page 1. A follower with no live page 1 instead gets one rebuilt
  from the store: the tweets of everyone they follow, joined with their
  authors, newest first, cut to the page size.
- **`FollowDto.Validate` and `TweetDto.Validate`**. The first reports empty
  ids and self-follows. The second reports an empty author id, and content
  whose lower-cased form contains one of seven script-injection patterns.

Modules:

- `common.dfy`: GUIDs, tweet views, validation results and time constants.
- `key_format.dfy`: how ints and GUIDs are spelled inside keys.
- `ttl_store.dfy`: the read, evict and write rules shared by both caches.
- `tweet_cache.dfy`: the tweet page cache.
- `follow_cache.dfy`: the follower-id cache.
- `cache_updater.dfy`: the store queries and the fanout.
- `follow_dto.dfy` and `tweet_dto.dfy`: the two validators.

Modelling choices:

- **Keys.** Cache keys are the datatype `PageKey(scope, page, size)`. The
  function `Render` spells out the exact strings the service builds, and
  `RenderInjective` proves that distinct keys give distinct strings. So a
  map keyed by `PageKey` behaves as the string-keyed dictionary does.
- **Time.** Time is an integer count of 100 ns ticks, passed as `now`.
- **Payloads.** A stored payload is the list itself, not its JSON text.
- **The store.** Follows, tweets and users are sequences of rows in store
  order. Queries follow LINQ-to-objects semantics, as the EF Core in-memory
  provider the application uses does. `OrderByDescending` is a stable sort,
  and `Take` of a non-positive count yields nothing.
- **Failing queries.** The set `queryFails` names the followers whose
  rebuild query throws. The updater swallows that exception.

## Model

| member | source | states |
|---|---|---|
| KeyFormat.IntDecimalInjective | ApiTwitterUala/Cache/Services/Impl/InMemoryTweetCacheService.cs:27 | distinct page numbers or sizes are interpolated as distinct decimal strings |
| KeyFormat.GuidStringInjective | ApiTwitterUala/Cache/Services/Impl/InMemoryTweetCacheService.cs:91 | distinct user ids are spelled as distinct 36-character GUID strings |
| TweetCache.RenderInjective | ApiTwitterUala/Cache/Services/Impl/InMemoryTweetCacheService.cs:27 | the global and the user page keys never collide, and a key determines its timeline, page and size |
| TweetCache.Render | ApiTwitterUala/Cache/Services/Impl/InMemoryTweetCacheService.cs:27 | the key string of a page, global as at line 27 or per user as at lines 91, 102, 111 and 126; RenderInjective and EveryKeyHasPagePrefix state it |
| TtlStore.ReadEvictsExpired | ApiTwitterUala/Cache/Services/Impl/InMemoryTweetCacheService.cs:29-42 | a read reports an entry exactly when its expiration is strictly after now; an entry that is not live is gone afterwards; no other key is touched |
| TtlStore.Read | ApiTwitterUala/Cache/Services/Impl/InMemoryTweetCacheService.cs:29-42 | what a lookup reports; ReadEvictsExpired states it: the data exactly when the entry's expiration is after now |
| TtlStore.AfterRead | ApiTwitterUala/Cache/Services/Impl/InMemoryTweetCacheService.cs:39 | the map after a lookup; ReadEvictsExpired states it: an entry that is not live is removed and nothing else changes |
| TtlStore.Write | ApiTwitterUala/Cache/Services/Impl/InMemoryTweetCacheService.cs:100-106 | the map after a store; WriteThenRead, WriteIsolated and WriteOverwrites state it |
| TtlStore.WriteThenRead | ApiTwitterUala/Cache/Services/Impl/InMemoryTweetCacheService.cs:100-106 | a written page is read back until the five-minute TTL elapses, and is absent and evicted from then on |
| TtlStore.WriteIsolated | ApiTwitterUala/Cache/Services/Impl/InMemoryTweetCacheService.cs:55-62 | a write under one key is invisible under every other key |
| TtlStore.WriteOverwrites | ApiTwitterUala/Cache/Services/Impl/InMemoryTweetCacheService.cs:100-106 | last writer wins: a second write replaces the payload and sets expiration to its own now plus five minutes |
| TweetCache.TweetCacheService.constructor | ApiTwitterUala/Cache/Services/Impl/InMemoryTweetCacheService.cs:15 | the shared map starts empty |
| TweetCache.TweetCacheService.TryGetValid | ApiTwitterUala/Cache/Services/Impl/InMemoryTweetCacheService.cs:29-42 | found exactly when the entry is live, with its data; the map afterwards is the one with an expired entry evicted |
| TweetCache.TweetCacheService.GetTweetPage | ApiTwitterUala/Cache/Services/Impl/InMemoryTweetCacheService.cs:44-53 | returns the live global page, absent otherwise, evicting an expired one |
| TweetCache.TweetCacheService.SetTweetPage | ApiTwitterUala/Cache/Services/Impl/InMemoryTweetCacheService.cs:55-62 | the global page key holds the list with expiration now plus five minutes; nothing else changes |
| TweetCache.TweetCacheService.GetUserTweetPage | ApiTwitterUala/Cache/Services/Impl/InMemoryTweetCacheService.cs:89-98 | returns the user's live page, absent otherwise, evicting an expired one |
| TweetCache.TweetCacheService.SetUserTweetPage | ApiTwitterUala/Cache/Services/Impl/InMemoryTweetCacheService.cs:100-107 | the user page key holds the list with expiration now plus five minutes; nothing else changes |
| TweetCache.SetThenGetUserTweetPage | ApiTwitterUala/Cache/Services/Impl/InMemoryTweetCacheService.cs:89-106 | a stored user page is read back before expiry and absent after; every other key, including another user, page or size, is unchanged |
| TweetCache.SetThenGetTweetPage | ApiTwitterUala/Cache/Services/Impl/InMemoryTweetCacheService.cs:44-62 | the same round trip for a global page |
| TweetCache.PrependPage | ApiTwitterUala/Cache/Services/Impl/InMemoryTweetCacheService.cs:116-119 | the new page has length min(old length + 1, pageSize); with pageSize above 0 the tweet is first and the rest is a prefix of the old page in order |
| TweetCache.AfterPrepend | ApiTwitterUala/Cache/Services/Impl/InMemoryTweetCacheService.cs:109-132 | the map and outcome of a prepend; PrependRewritesPage1, PrependWithoutInvalidation, PrependWithoutPage1, PrependRejectsNegativePageSize and PrependStaysInScope state it |
| TweetCache.TweetCacheService.PrependToPage1 | ApiTwitterUala/Cache/Services/Impl/InMemoryTweetCacheService.cs:109-132 | the map and outcome are those of AfterPrepend: page 1 rewritten and pages 2..maxPagesToInvalidate removed, page 1 absent, or a rejected negative page size |
| TweetCache.TweetCacheService.PrependTweet | ApiTwitterUala/Cache/Services/Impl/InMemoryTweetCacheService.cs:64-87 | PrependToPage1 on the global feed |
| TweetCache.TweetCacheService.PrependTweetToUser | ApiTwitterUala/Cache/Services/Impl/InMemoryTweetCacheService.cs:109-132 | PrependToPage1 on one user's timeline |
| TweetCache.PrependRewritesPage1 | ApiTwitterUala/Cache/Services/Impl/InMemoryTweetCacheService.cs:114-128 | with page 1 live, page 1 holds the prepended page with a fresh TTL; exactly pages 2..maxPagesToInvalidate of the same timeline and size are removed; every other entry is kept as it was |
| TweetCache.PrependWithoutInvalidation | ApiTwitterUala/Cache/Services/Impl/InMemoryTweetCacheService.cs:124-128 | with maxPagesToInvalidate below 2, no key other than page 1 changes |
| TweetCache.PrependWithoutPage1 | ApiTwitterUala/Cache/Services/Impl/InMemoryTweetCacheService.cs:114 | with page 1 absent or expired, nothing is written or removed except the expired page 1 |
| TweetCache.PrependRejectsNegativePageSize | ApiTwitterUala/Cache/Services/Impl/InMemoryTweetCacheService.cs:117-119 | a negative page size with page 1 live makes RemoveRange throw before any write, so the map is unchanged |
| TweetCache.PrependStaysInScope | ApiTwitterUala/Cache/Services/Impl/InMemoryTweetCacheService.cs:109-132 | keys of other timelines or other page sizes are unchanged |
| TweetCache.PrependKeepsSorted | ApiTwitterUala/Cache/Services/Impl/InMemoryTweetCacheService.cs:116-119 | prepending a tweet no older than the head keeps the page newest first |
| TweetCache.PrependAllBoundedAndSorted | ApiTwitterUala/Cache/Services/Impl/InMemoryTweetCacheService.cs:116-122 | any run of prepends of successively newer tweets onto a bounded sorted page keeps it at most pageSize long and newest first |
| TweetCache.TweetCacheService.InvalidateAllPages | ApiTwitterUala/Cache/Services/Impl/InMemoryTweetCacheService.cs:134-154 | the map afterwards is AfterInvalidateAll: global pages 1..10 of size 30 and every key with a "tweets:page:" or "usertweets:" prefix are removed |
| TweetCache.AfterInvalidateAll | ApiTwitterUala/Cache/Services/Impl/InMemoryTweetCacheService.cs:134-151 | the map after invalidate-all; InvalidateAllEmpties states it: empty |
| TweetCache.EveryKeyHasPagePrefix | ApiTwitterUala/Cache/Services/Impl/InMemoryTweetCacheService.cs:147 | every key the service builds starts with one of the two swept prefixes |
| TweetCache.InvalidateAllEmpties | ApiTwitterUala/Cache/Services/Impl/InMemoryTweetCacheService.cs:134-151 | after invalidate-all no page of any timeline is left |
| FollowCache.KeyInjective | ApiTwitterUala/Cache/Services/Impl/InMemoryFollowCacheService.cs:23 | distinct users have distinct "followers:{userId}" keys |
| FollowCache.Key | ApiTwitterUala/Cache/Services/Impl/InMemoryFollowCacheService.cs:23 | the "followers:{userId}" key; KeyInjective states it |
| FollowCache.FollowCacheService.constructor | ApiTwitterUala/Cache/Services/Impl/InMemoryFollowCacheService.cs:11 | the follower-id map starts empty |
| FollowCache.FollowCacheService.GetFollowerIds | ApiTwitterUala/Cache/Services/Impl/InMemoryFollowCacheService.cs:25-41 | returns the live ids, absent otherwise, and evicts an expired entry |
| FollowCache.FollowCacheService.SetFollowerIds | ApiTwitterUala/Cache/Services/Impl/InMemoryFollowCacheService.cs:43-50 | the user's entry holds the ids with expiration now plus five minutes; nothing else changes |
| FollowCache.FollowCacheService.InvalidateFollowers | ApiTwitterUala/Cache/Services/Impl/InMemoryFollowCacheService.cs:52-57 | the user's entry is gone and every other user's entry is unchanged |
| FollowCache.SetThenGetFollowerIds | ApiTwitterUala/Cache/Services/Impl/InMemoryFollowCacheService.cs:25-50 | stored ids are read back in order before expiry, absent and evicted after; other users are unchanged |
| FollowCache.TweetCacheLeavesFollowerIds | ApiTwitterUala/Cache/Services/Impl/InMemoryFollowCacheService.cs:11 | nothing the tweet page cache does, invalidate-all included, changes the follower-id map |
| CacheUpdater.FollowerIdsExact | ApiTwitterUala.Services/Cache/Services/Impl/InMemoryTweetCacheUpdaterService.cs:34-38 | a user is listed exactly when a follow edge from the author to them exists |
| CacheUpdater.FollowerIdsOf | ApiTwitterUala.Services/Cache/Services/Impl/InMemoryTweetCacheUpdaterService.cs:34-38 | the follower-id query; FollowerIdsExact and FollowerIdsDistinct state it |
| CacheUpdater.FollowerIdsDistinct | ApiTwitterUala.Services/Cache/Services/Impl/InMemoryTweetCacheUpdaterService.cs:34-38 | with no duplicate follow rows (the composite key), no follower is listed twice |
| CacheUpdater.FollowedByExact | ApiTwitterUala.Services/Cache/Services/Impl/InMemoryTweetCacheUpdaterService.cs:60-64 | an author is listed exactly when the follower follows them |
| CacheUpdater.FollowedBy | ApiTwitterUala.Services/Cache/Services/Impl/InMemoryTweetCacheUpdaterService.cs:60-64 | the followed-authors query; FollowedByExact states it |
| CacheUpdater.JoinOneExact | ApiTwitterUala.Services/Cache/Services/Impl/InMemoryTweetCacheUpdaterService.cs:69-80 | the join rows of one tweet are its views with each user row of its author |
| CacheUpdater.JoinViewsExact | ApiTwitterUala.Services/Cache/Services/Impl/InMemoryTweetCacheUpdaterService.cs:66-80 | a view is in the join exactly when it comes from a tweet by a followed author and a user row with that author's id |
| CacheUpdater.JoinViews | ApiTwitterUala.Services/Cache/Services/Impl/InMemoryTweetCacheUpdaterService.cs:66-80 | the filter and inner join of tweets with users; JoinViewsExact states it |
| CacheUpdater.InsertByCreatedDesc | ApiTwitterUala.Services/Cache/Services/Impl/InMemoryTweetCacheUpdaterService.cs:81 | inserting into a newest-first list keeps it newest first and adds exactly the item |
| CacheUpdater.SortByCreatedDesc | ApiTwitterUala.Services/Cache/Services/Impl/InMemoryTweetCacheUpdaterService.cs:81 | the result is a permutation of the input, newest first |
| CacheUpdater.Take | ApiTwitterUala.Services/Cache/Services/Impl/InMemoryTweetCacheUpdaterService.cs:82 | the result is a prefix of the input, min(n, length) long and empty for n at most 0 |
| CacheUpdater.TakeOfSorted | ApiTwitterUala.Services/Cache/Services/Impl/InMemoryTweetCacheUpdaterService.cs:81-82 | the first n items of a newest-first list are newest first and drawn from it |
| CacheUpdater.TakeKeepsNewest | ApiTwitterUala.Services/Cache/Services/Impl/InMemoryTweetCacheUpdaterService.cs:81-82 | an item cut off is no newer than the last item kept, and only a full page cuts items off |
| CacheUpdater.RebuildPageIsTopOfJoin | ApiTwitterUala.Services/Cache/Services/Impl/InMemoryTweetCacheUpdaterService.cs:60-83 | a rebuilt page has at most pageSize items, newest first, drawn from the join, and only older items are left out |
| CacheUpdater.RebuildPage | ApiTwitterUala.Services/Cache/Services/Impl/InMemoryTweetCacheUpdaterService.cs:60-83 | the rebuilt page 1; RebuildPageIsTopOfJoin states it |
| CacheUpdater.StepStaysInScope | ApiTwitterUala.Services/Cache/Services/Impl/InMemoryTweetCacheUpdaterService.cs:42-102 | a follower's task changes no key outside that follower's timeline |
| CacheUpdater.StepReadsOwnKeys | ApiTwitterUala.Services/Cache/Services/Impl/InMemoryTweetCacheUpdaterService.cs:42-102 | a follower's task depends only on that follower's own keys |
| CacheUpdater.FollowerStep | ApiTwitterUala.Services/Cache/Services/Impl/InMemoryTweetCacheUpdaterService.cs:42-102 | the map after one follower's task; StepStaysInScope, StepReadsOwnKeys and the four Step lemmas state it |
| CacheUpdater.Fanout | ApiTwitterUala.Services/Cache/Services/Impl/InMemoryTweetCacheUpdaterService.cs:42-104 | the map after every listed follower's task; FanoutOutside and FanoutAtFollower state it |
| CacheUpdater.StepWithCachedPage | ApiTwitterUala.Services/Cache/Services/Impl/InMemoryTweetCacheUpdaterService.cs:49-58 | with page 1 live, the follower's page 1 holds the prepended page with a fresh TTL, page 2 is gone, and nothing else changes |
| CacheUpdater.StepWithoutCachedPage | ApiTwitterUala.Services/Cache/Services/Impl/InMemoryTweetCacheUpdaterService.cs:57-91 | without a live page 1, page 1 is the rebuilt page with a fresh TTL and nothing else changes |
| CacheUpdater.StepWhenQueryFails | ApiTwitterUala.Services/Cache/Services/Impl/InMemoryTweetCacheUpdaterService.cs:55-96 | when the rebuild query throws, page 1 stays absent and nothing else changes |
| CacheUpdater.StepWithNegativePageSize | ApiTwitterUala.Services/Cache/Services/Impl/InMemoryTweetCacheUpdaterService.cs:47-53 | a prepend that throws is swallowed and leaves the map unchanged |
| CacheUpdater.FanoutOutside | ApiTwitterUala.Services/Cache/Services/Impl/InMemoryTweetCacheUpdaterService.cs:42-104 | keys of timelines of unlisted users come out of the fanout unchanged |
| CacheUpdater.FanoutAtFollower | ApiTwitterUala.Services/Cache/Services/Impl/InMemoryTweetCacheUpdaterService.cs:42-104 | with distinct followers, each follower's keys end as that follower's own task leaves the original map, whatever the order and the other followers |
| CacheUpdater.FanoutReachesEveryFollower | ApiTwitterUala.Services/Cache/Services/Impl/InMemoryTweetCacheUpdaterService.cs:32-104 | every follower of the author ends with page 1 prepended if it was live, unchanged if it was live but the page size is negative, rebuilt if it was not live, and absent only when their own rebuild query failed |
| CacheUpdater.FanoutInvalidatesAtMostPage2 | ApiTwitterUala.Services/Cache/Services/Impl/InMemoryTweetCacheUpdaterService.cs:49 | of a follower's other pages only page 2 of the same size can be removed |
| CacheUpdater.FanoutLeavesOthersAlone | ApiTwitterUala.Services/Cache/Services/Impl/InMemoryTweetCacheUpdaterService.cs:34-49 | global pages and pages of non-followers are unchanged |
| CacheUpdater.FanoutIsolatesFailures | ApiTwitterUala.Services/Cache/Services/Impl/InMemoryTweetCacheUpdaterService.cs:85-96 | a follower whose own query succeeds ends as if no query had failed |
| CacheUpdater.UpdateFollower | ApiTwitterUala.Services/Cache/Services/Impl/InMemoryTweetCacheUpdaterService.cs:42-102 | one follower's task leaves the map that FollowerStep describes |
| CacheUpdater.UpdateFollowersCache | ApiTwitterUala.Services/Cache/Services/Impl/InMemoryTweetCacheUpdaterService.cs:32-105 | processing the author's followers in store order leaves the map that Fanout describes |
| FollowDtoValidation.Validate | ApiTwitterUala/DTOs/FollowDto.cs:13-23 | each of the three results is present exactly when its condition holds, nothing else is ever returned, and none occurs twice; the UserId result comes first and the self-follow one last; both ids empty gives all three in order; distinct non-empty ids give none |
| TweetDtoValidation.Validate | ApiTwitterUala/DTOs/TweetDto.cs:15-40 | at most two results, and the first is the empty-id result exactly when UserId is empty; ValidateExact states the rest |
| TweetDtoValidation.LowerChar | ApiTwitterUala/DTOs/TweetDto.cs:20 | capital ASCII letters are lowered, and a lower-case ASCII letter can only come from itself, its capital or U+212A |
| TweetDtoValidation.ToLower | ApiTwitterUala/DTOs/TweetDto.cs:20 | the result has the same length, lowered character by character |
| TweetDtoValidation.ToLowerIdempotent | ApiTwitterUala/DTOs/TweetDto.cs:20 | lowering twice is lowering once |
| TweetDtoValidation.ContainsExact | ApiTwitterUala/DTOs/TweetDto.cs:34 | the substring search succeeds exactly when the pattern occurs at some position |
| TweetDtoValidation.Scan | ApiTwitterUala/DTOs/TweetDto.cs:32-39 | the scan yields one dangerous-content result exactly when some pattern is contained, and none otherwise |
| TweetDtoValidation.ScanFindsFlagged | ApiTwitterUala/DTOs/TweetDto.cs:21-39 | scanning the seven patterns flags the content exactly when one of them occurs in its lower-cased form |
| TweetDtoValidation.ValidateExact | ApiTwitterUala/DTOs/TweetDto.cs:15-40 | the results are the empty-id result first (exactly when UserId is empty), then one dangerous-content result exactly when a pattern occurs; none for a valid input |
| TweetDtoValidation.NullContentIsEmpty | ApiTwitterUala/DTOs/TweetDto.cs:20 | null content validates as empty content and is never dangerous |
| TweetDtoValidation.IgnoresCase | ApiTwitterUala/DTOs/TweetDto.cs:20 | content and its lower-cased form give the same results |
| TweetDtoValidation.CatchesUpperCaseScript | ApiTwitterUala/DTOs/TweetDto.cs:20-36 | "<SCRIPT>" with a valid author gives exactly the dangerous-content result |

## Left out

- Concurrency in the updater is not modelled: `SemaphoreSlim(20)`, `Task.WhenAll` and the cancellation tokens. Followers are processed one after the other. `FanoutAtFollower` shows that, with distinct follower ids, each follower's outcome does not depend on the order.
- The whole fanout uses one `now`. In the source each read and write takes its own clock reading.
- The background queue is not modelled: `EnqueueUpdateForFollowers`, the hosted service and its `Task.Run`.
- JSON serialization is not modelled; the payload is the list. So the model has no payload that fails to deserialize, and the getters' catch branch, which reports absent, never happens. The empty-payload test in the getters cannot fail, because a serialized list is never empty.
- `SlidingExpiration` is configured but never applied, so sliding expiry is not modelled.
- The clock is not modelled: `DateTimeOffset.UtcNow` is the parameter `now`, and `CreatedAt` is an integer.
- The `static` dictionary is shared by every instance of a service. It is modelled as one service object.
- TweetCache.TweetCacheService.PrependToPage1: does not model 32-bit wrap-around of the page counter. With `maxPagesToInvalidate` equal to `int.MaxValue`, the C# loop overflows and never ends; the model's loop stops.
- CacheUpdater.UpdateFollowersCache: the follower-id query is outside every try, so a failure there would abort the whole job before any follower is processed. That failure is not modelled; the query always succeeds. Only the per-follower rebuild query can fail (`queryFails`).
- The default of 3 for `maxPagesToInvalidate` in `PrependTweetAsync` and `PrependTweetToUserAsync` is not modelled. The Dafny methods take it explicitly; the updater passes 2.
- CacheUpdater.UpdateFollower: the only prepend failure modelled is the range error of a negative page size. Other exceptions the cache could raise are not modelled.
- CacheUpdater.FollowerStep: the failure of the set after a rebuild is not modelled. The in-memory set cannot throw.
- Tie order is not modelled. The store returns rows in the order of its sequences, and tweets with equal `CreatedAt` keep that order. A relational store may order them differently.
- TweetDtoValidation.LowerChar: models lower-casing only where it can yield an ASCII character: 'A'..'Z' and U+212A. Invariant casing keeps U+0130 as it is, and so does the model. The lower-case forms of other non-ASCII characters are not modelled; every such character is kept as it is. All forbidden patterns are ASCII, so only 'A'..'Z' and U+212A can affect a match.
- The DataAnnotations attributes on the DTOs are not modelled: `Required`, `MaxLength(280)` and the `RegularExpression` on Content. The framework interprets them.
- `TweetDto` does not implement `IValidatableObject`, so the framework never calls its `Validate`. It is modelled as a standalone function.
- The controllers, mappers and the rest of the persistence wiring are not part of this model. The `InvalidateUserPagesAsync` that `FollowController` calls is not part of this model either; it exists neither in `ITweetCacheService` nor in its implementation.
