# TourGuide reward ledger and nearby attractions, in Dafny

This project models the core of the TourGuide service: the reward calculation of
`RewardsService` and the tracking, user registry and nearby-attraction queries of
`TourGuideService`. Everything is pure and sequential over immutable values:

- `domain.dfy` (module `Domain`): locations, attractions, visited locations,
  rewards, users, the nearby-attraction record, and the types of the three
  external collaborators. The collaborators are the distance function, the GPS
  fetch and the reward-points oracle. Each one is passed in as a plain function.
- `rewards.dfy` (module `Rewards`): the reward service. Its state is the
  proximity buffer (default 10 miles), the distance function, the points oracle
  and the attraction catalog. It holds the two proximity predicates: reward
  nearness against the buffer, and display nearness within 200 miles. Both are
  inclusive. The reward calculation is a left fold over the user's visited
  locations, with a nested left fold over the catalog. The guard re-reads the
  reward list built so far, so one call never rewards one attraction name twice.
- `ranking.dfy` (module `Ranking`): a stable insertion sort by a real key and
  the "first k" cut. Together they are the `sorted(comparingDouble(..)).limit(5)`
  pipeline of the nearby-attractions query. Stability is stated through key
  classes: for each key value, the elements with that key keep their input order.
- `tourguide.dfy` (module `TourGuide`): the user registry as a map from user
  name to user, single and bulk tracking, the current-location lookup, the five
  nearest attractions and their detail records.

Distances are kept in the argument order the source uses. Reward nearness and
display nearness measure from the attraction to the location. The
nearby-attraction query measures from the user's location to the attraction.
No symmetry of the distance is assumed or needed.

## Model

| member | source | states |
|---|---|---|
| `Rewards.Grant` | TourGuide/src/main/java/com/openclassrooms/tourguide/service/RewardsService.java:85-90 | One (visit, attraction) step appends at most one reward, at the end. The step keeps name uniqueness. A new reward pairs this visit with this attraction, which are near, and carries the oracle's points. Afterwards the attraction's name is rewarded iff it was before or the pair is near. |
| `Rewards.ScanCatalog` | TourGuide/src/main/java/com/openclassrooms/tourguide/service/RewardsService.java:85-91 | The inner loop over the catalog only appends. It keeps name uniqueness. Every appended reward is for this visit, a catalog attraction near it, and the oracle's points. Every catalog attraction near the visit ends with its name rewarded. |
| `Rewards.ScanVisits` | TourGuide/src/main/java/com/openclassrooms/tourguide/service/RewardsService.java:84-92 | The outer loop over the history snapshot only appends. It keeps name uniqueness. Every appended reward is justified by a visit of the history, a catalog attraction near it, and the oracle's points. Every near (visit, attraction) pair ends with the attraction's name rewarded. |
| `Rewards.CalculateRewards` | TourGuide/src/main/java/com/openclassrooms/tourguide/service/RewardsService.java:79-95 | A user's reward calculation leaves the history and identity untouched. Old rewards stay, in order, as a prefix. It never creates a duplicate name. Every new reward is justified, with the oracle's points. Every near pair of history and catalog is rewarded by name afterwards. |
| `Rewards.CalculateRewardsIdempotent` | TourGuide/src/main/java/com/openclassrooms/tourguide/service/RewardsService.java:84-92 | A second calculation on the result, with the history unchanged, returns the user unchanged. |
| `Rewards.RewardedNamesAfterCalculation` | TourGuide/src/main/java/com/openclassrooms/tourguide/service/RewardsService.java:84-92 | After the calculation, a name is rewarded iff it was rewarded before, or some visited location is within the buffer of some catalog attraction with that name. |
| `Rewards.NewRewardPointsFromOracle` | TourGuide/src/main/java/com/openclassrooms/tourguide/service/RewardsService.java:112-114 | Each reward the calculation adds carries exactly the points the oracle gives for its attraction's id and the user's id. |
| `Rewards.LargerBufferRewardsMore` | TourGuide/src/main/java/com/openclassrooms/tourguide/service/RewardsService.java:108-110 | A larger proximity buffer rewards every name that a smaller one rewards. |
| `Rewards.EverythingNearRewardsWholeCatalog` | TourGuide/src/main/java/com/openclassrooms/tourguide/service/RewardsService.java:84-92 | Suppose the buffer puts every catalog attraction near every visited location, and the history is not empty. Then every catalog attraction's name is rewarded. |
| `Rewards.NewServiceUsesDefaultBuffer` | TourGuide/src/main/java/com/openclassrooms/tourguide/service/RewardsService.java:36-43 | A new service counts a visit as near an attraction iff their distance is at most 10 miles. |
| `Rewards.SetProximityBufferGoverns` | TourGuide/src/main/java/com/openclassrooms/tourguide/service/RewardsService.java:68-70 | After the buffer is set to b, nearness means distance at most b. The display range and the catalog do not change. |
| `Rewards.AttractionProximityIsTwoHundredMiles` | TourGuide/src/main/java/com/openclassrooms/tourguide/service/RewardsService.java:97-99 | An attraction is within display proximity of a location iff their distance is at most 200 miles. |
| `Ranking.SortBy` | TourGuide/src/main/java/com/openclassrooms/tourguide/service/TourGuideService.java:125-127 | The sort keeps the length and the multiset of its input. Its output is non-decreasing by key. For every key value, the elements with that key appear in input order, so the sort is stable. |
| `Ranking.Smallest` | TourGuide/src/main/java/com/openclassrooms/tourguide/service/TourGuideService.java:125-130 | Cutting the stable sort at m gives min(m, n) elements, drawn from the input as a sub-multiset. They are sorted, and each is no farther than every input element left out. Equal-key elements keep input order, and a duplicate-free input gives a duplicate-free output. |
| `TourGuide.GetNearByAttractions` | TourGuide/src/main/java/com/openclassrooms/tourguide/service/TourGuideService.java:124-131 | The query returns min(5, catalog size) catalog attractions, without using any one more often than the catalog holds it. They come in non-decreasing distance from the visited location. No catalog attraction left out is nearer than a returned one. Ties keep catalog order, and a duplicate-free catalog gives a duplicate-free answer. |
| `TourGuide.GetNearByAttractionsInfo` | TourGuide/src/main/java/com/openclassrooms/tourguide/service/TourGuideService.java:150-166 | The user comes out as after a current-location lookup. There is one record per given attraction, in order. The i-th record carries the i-th attraction's name and coordinates and the user's last location. It also carries the distance from that location to the attraction, and the oracle's points for (attraction id, user id). |
| `TourGuide.GetUser` | TourGuide/src/main/java/com/openclassrooms/tourguide/service/TourGuideService.java:70-72 | The lookup finds a user iff the name is registered, and then it is that entry. |
| `TourGuide.GetAllUsers` | TourGuide/src/main/java/com/openclassrooms/tourguide/service/TourGuideService.java:74-76 | The list has one user per registry entry, each taken from a distinct name, and every registered user is in it. |
| `TourGuide.AddUser` | TourGuide/src/main/java/com/openclassrooms/tourguide/service/TourGuideService.java:78-82 | The names after an insertion are the old names plus the user's. An existing entry is never replaced. A fresh name maps to the added user. |
| `TourGuide.AddUserIdempotent` | TourGuide/src/main/java/com/openclassrooms/tourguide/service/TourGuideService.java:78-82 | Adding under a taken name leaves the registry unchanged, and adding the same user twice is the same as adding it once. |
| `TourGuide.AddThenGetUser` | TourGuide/src/main/java/com/openclassrooms/tourguide/service/TourGuideService.java:70-82 | After adding under a fresh name, the lookup by that name returns the user. Lookups of other names are unchanged, and the user is among the registry's values. |
| `TourGuide.AddUserKeepsWellKeyed` | TourGuide/src/main/java/com/openclassrooms/tourguide/service/TourGuideService.java:78-82 | If every entry is filed under its own user name, that still holds after an insertion. |
| `TourGuide.TrackUserLocation` | TourGuide/src/main/java/com/openclassrooms/tourguide/service/TourGuideService.java:99-106 | Tracking returns the GPS answer for the user's id. The history grows by exactly that entry, at the end. Old rewards stay as a prefix and names stay unique. New rewards are justified by the new history. Every catalog attraction near any location of the new history, old or new, is rewarded by name, because the calculation rescans the whole history. |
| `TourGuide.TrackUsersLocations` | TourGuide/src/main/java/com/openclassrooms/tourguide/service/TourGuideService.java:113-115 | Bulk tracking returns one user per input user, the i-th being the i-th input user tracked once. |
| `TourGuide.GetUserLocation` | TourGuide/src/main/java/com/openclassrooms/tourguide/service/TourGuideService.java:65-68 | With a history, the lookup returns its last entry and changes nothing. With no history, it is exactly a tracking of the user: a one-entry history holding the returned GPS answer, the same identity, and the rewards that tracking earns. Either way the returned location is the user's last one. |
| `TourGuide.TrackedLocationBelongsToUser` | TourGuide/src/test/java/com/openclassrooms/tourguide/TestTourGuideService.java:88-92 | When the GPS answers for the id it is asked about, the tracked location's user id is the user's. |
| `TourGuide.TrackThenGetUserLocation` | TourGuide/src/main/java/com/openclassrooms/tourguide/service/TourGuideService.java:65-68 | A lookup right after tracking returns the tracked location and the same user. |
| `TourGuide.GetUserLocationIdempotent` | TourGuide/src/main/java/com/openclassrooms/tourguide/service/TourGuideService.java:65-68 | A second lookup returns the same location and leaves the user as the first lookup left it. |

## Left out

- The trigonometric distance formula (`getDistance`) is floating-point arc-cosine arithmetic. The model takes the distance as a function parameter and proves nothing about zero distance or symmetry.
- Concurrency is not modelled: the 500-thread executor, `runAsync`, `join`, `synchronized (user)` and `parallelStream`. Each user's reward calculation is one atomic step. Bulk tracking is a sequential map in list order. In the source, the history append of `trackUserLocation` happens outside the lock; any interleaving that allows is not modelled.
- Failures of the GPS service and of the reward-points service are not modelled, because the source lets them propagate as exceptions. The oracles are total functions.
- The GPS fetch is a fixed function of the user id. So a user tracked twice gets the same location twice; positions that change over time are not modelled.
- Users are values, not shared objects. Bulk tracking returns the tracked users and does not write them back into a registry, and a user listed twice is tracked twice independently. The aliasing of the source is not modelled: the registry and the lists hold the same mutable objects there.
- The tracker thread, its start and stop, and the shutdown hook are background scheduling. The tracker's source is not part of this model.
- `getTripDeals` and the trip pricer are an external pricing service, unrelated to the ledger.
- The generation of internal test users is randomness, the clock and logging.
- The REST controller and the `null` result for unknown user names belong to the HTTP layer. `GetUser` returns `None` there instead.
- The attraction catalog is loaded once from the GPS library. Here it is a fixed sequence held by the reward service, and the tour-guide service reads the same sequence.
- `User.addUserReward` and `User.getLastVisitedLocation` are not part of this model. They are taken as a plain append and the last element. A user's phone, email, preferences and trip deals are left out.
- `getUserRewards` is a plain read of the reward list and has no separate member.
- The number of nearby attractions comes from a constants class that is not part of this model. The value 5 is taken from the test's expectation.
- Java `int` and `double` are modelled as unbounded integers and exact reals. Overflow, NaN and the ordering of negative zero in `Double.compare` are not modelled.
