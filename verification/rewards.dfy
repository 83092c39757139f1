/**
 The reward service: proximity predicates, the adjustable proximity buffer and
 the reward calculation that appends one reward per attraction name for which
 some visited location of the user is close enough.

 The calculation of a user runs atomically (it holds the user's lock), so it is
 modelled as one pure function from the user before to the user after.
 */
module Rewards {
  import opened Domain

  /** Miles within which a visited location earns the reward of an attraction, until changed. */
  const DefaultProximityBuffer: int := 10

  /** Miles within which an attraction counts as nearby for display. */
  const AttractionProximityRange: int := 200

  /** The state of the reward service: its mutable buffer, its distance function,
      its reward-points oracle and the attraction catalog it scans. */
  datatype RewardsService = RewardsService(
    proximityBuffer: int,
    getDistance: DistanceFn,
    rewardPoints: PointsOracle,
    attractions: seq<Attraction>)

  /** A freshly constructed service: the buffer starts at its default. */
  function NewRewardsService(getDistance: DistanceFn, rewardPoints: PointsOracle, catalog: seq<Attraction>): RewardsService {
    RewardsService(DefaultProximityBuffer, getDistance, rewardPoints, catalog)
  }

  function SetProximityBuffer(svc: RewardsService, proximityBuffer: int): RewardsService {
    svc.(proximityBuffer := proximityBuffer)
  }

  predicate IsWithinAttractionProximity(svc: RewardsService, attraction: Attraction, location: Location) {
    svc.getDistance(attraction.AsLocation(), location) <= AttractionProximityRange as real
  }

  predicate NearAttraction(svc: RewardsService, visitedLocation: VisitedLocation, attraction: Attraction) {
    svc.getDistance(attraction.AsLocation(), visitedLocation.location) <= svc.proximityBuffer as real
  }

  function GetRewardPoints(svc: RewardsService, attraction: Attraction, user: User): int {
    svc.rewardPoints(attraction.attractionId, user.userId)
  }

  // ---------------------------------------------------------------------------
  // The reward ledger
  // ---------------------------------------------------------------------------

  /** Some reward in `rewards` is for an attraction called `name`. */
  predicate RewardedName(rewards: seq<UserReward>, name: string) {
    exists i :: 0 <= i < |rewards| && rewards[i].attraction.attractionName == name
  }

  /** No two rewards are for attractions of the same name (the ledger invariant). */
  ghost predicate NamesUnique(rewards: seq<UserReward>) {
    forall i, j :: 0 <= i < j < |rewards| ==> rewards[i].attraction.attractionName != rewards[j].attraction.attractionName
  }

  /** `reward` is one the calculation may grant to user `userId` with history `visits`:
      its visit is in the history, its attraction in the catalog, the two are near,
      and its points are the oracle's. */
  ghost predicate Justified(svc: RewardsService, userId: Uuid, visits: seq<VisitedLocation>, reward: UserReward) {
    && reward.visitedLocation in visits
    && reward.attraction in svc.attractions
    && NearAttraction(svc, reward.visitedLocation, reward.attraction)
    && reward.rewardPoints == svc.rewardPoints(reward.attraction.attractionId, userId)
  }

  /** Some visit of `visits` is near some catalog attraction called `name`. */
  ghost predicate Earned(svc: RewardsService, visits: seq<VisitedLocation>, name: string) {
    exists v, a :: v in visits && a in svc.attractions && a.attractionName == name && NearAttraction(svc, v, a)
  }

  /** Whether the reward list is in the name-covering state: every (visit, catalog attraction)
      pair that is near has its attraction name rewarded. */
  ghost predicate Covers(svc: RewardsService, visits: seq<VisitedLocation>, rewards: seq<UserReward>) {
    forall v, a :: v in visits && a in svc.attractions && NearAttraction(svc, v, a) ==> RewardedName(rewards, a.attractionName)
  }

  lemma RewardedInExtension(rewards: seq<UserReward>, longer: seq<UserReward>, name: string)
    requires rewards <= longer
    requires RewardedName(rewards, name)
    ensures RewardedName(longer, name)
  {
    var i :| 0 <= i < |rewards| && rewards[i].attraction.attractionName == name;
    assert longer[i] == rewards[i];
  }

  /** The body of the inner loop for one (visit, attraction) pair: the guard re-reads the
      current reward list, then checks proximity, then appends. */
  function Grant(svc: RewardsService, userId: Uuid, rewards: seq<UserReward>, v: VisitedLocation, a: Attraction): (r: seq<UserReward>)
    ensures rewards <= r && |r| <= |rewards| + 1
    ensures NamesUnique(rewards) ==> NamesUnique(r)
    ensures |r| == |rewards| + 1 ==>
              && r[|rewards|].visitedLocation == v
              && r[|rewards|].attraction == a
              && NearAttraction(svc, v, a)
              && r[|rewards|].rewardPoints == svc.rewardPoints(a.attractionId, userId)
    ensures RewardedName(r, a.attractionName) <==> RewardedName(rewards, a.attractionName) || NearAttraction(svc, v, a)
  {
    if !RewardedName(rewards, a.attractionName) && NearAttraction(svc, v, a) then
      var r := rewards + [UserReward(v, a, svc.rewardPoints(a.attractionId, userId))];
      assert r[|rewards|].attraction.attractionName == a.attractionName;
      r
    else
      rewards
  }

  /** The inner loop: one visited location against a (remaining) list of attractions. */
  function ScanCatalog(svc: RewardsService, userId: Uuid, rewards: seq<UserReward>, v: VisitedLocation, attractions: seq<Attraction>): (r: seq<UserReward>)
    ensures rewards <= r
    ensures NamesUnique(rewards) ==> NamesUnique(r)
    ensures forall k :: |rewards| <= k < |r| ==>
              && r[k].visitedLocation == v
              && r[k].attraction in attractions
              && NearAttraction(svc, v, r[k].attraction)
              && r[k].rewardPoints == svc.rewardPoints(r[k].attraction.attractionId, userId)
    ensures forall a :: a in attractions && NearAttraction(svc, v, a) ==> RewardedName(r, a.attractionName)
    decreases |attractions|
  {
    if |attractions| == 0 then
      rewards
    else
      var g := Grant(svc, userId, rewards, v, attractions[0]);
      var r := ScanCatalog(svc, userId, g, v, attractions[1..]);
      ScanCatalogStep(svc, userId, rewards, v, attractions, g, r);
      r
  }

  /** The inner loop's step: the first attraction, then the rest. */
  lemma ScanCatalogStep(svc: RewardsService, userId: Uuid, rewards: seq<UserReward>, v: VisitedLocation, attractions: seq<Attraction>, g: seq<UserReward>, r: seq<UserReward>)
    requires |attractions| > 0
    requires g == Grant(svc, userId, rewards, v, attractions[0])
    requires g <= r
    requires NamesUnique(g) ==> NamesUnique(r)
    requires forall k :: |g| <= k < |r| ==>
               && r[k].visitedLocation == v
               && r[k].attraction in attractions[1..]
               && NearAttraction(svc, v, r[k].attraction)
               && r[k].rewardPoints == svc.rewardPoints(r[k].attraction.attractionId, userId)
    requires forall a :: a in attractions[1..] && NearAttraction(svc, v, a) ==> RewardedName(r, a.attractionName)
    ensures rewards <= r
    ensures NamesUnique(rewards) ==> NamesUnique(r)
    ensures forall k :: |rewards| <= k < |r| ==>
              && r[k].visitedLocation == v
              && r[k].attraction in attractions
              && NearAttraction(svc, v, r[k].attraction)
              && r[k].rewardPoints == svc.rewardPoints(r[k].attraction.attractionId, userId)
    ensures forall a :: a in attractions && NearAttraction(svc, v, a) ==> RewardedName(r, a.attractionName)
  {
    var first := attractions[0];
    forall k | |rewards| <= k < |r|
      ensures r[k].attraction in attractions
    {
      if k < |g| {
        assert r[k] == g[k];
      } else {
        assert r[k].attraction in attractions[1..];
      }
    }
    forall a | a in attractions && NearAttraction(svc, v, a)
      ensures RewardedName(r, a.attractionName)
    {
      if a == first {
        RewardedInExtension(g, r, a.attractionName);
      } else {
        assert a in attractions[1..];
      }
    }
  }

  /** The outer loop: each visited location of the snapshot, in order. */
  function ScanVisits(svc: RewardsService, userId: Uuid, rewards: seq<UserReward>, visits: seq<VisitedLocation>): (r: seq<UserReward>)
    ensures rewards <= r
    ensures NamesUnique(rewards) ==> NamesUnique(r)
    ensures forall k :: |rewards| <= k < |r| ==> Justified(svc, userId, visits, r[k])
    ensures Covers(svc, visits, r)
    decreases |visits|
  {
    if |visits| == 0 then
      rewards
    else
      var c := ScanCatalog(svc, userId, rewards, visits[0], svc.attractions);
      var r := ScanVisits(svc, userId, c, visits[1..]);
      ScanVisitsStep(svc, userId, rewards, visits, c, r);
      r
  }

  /** The outer loop's step: the rewards of the first visit, then those of the rest. */
  lemma ScanVisitsStep(svc: RewardsService, userId: Uuid, rewards: seq<UserReward>, visits: seq<VisitedLocation>, c: seq<UserReward>, r: seq<UserReward>)
    requires |visits| > 0
    requires c == ScanCatalog(svc, userId, rewards, visits[0], svc.attractions)
    requires c <= r
    requires NamesUnique(c) ==> NamesUnique(r)
    requires forall k :: |c| <= k < |r| ==> Justified(svc, userId, visits[1..], r[k])
    requires Covers(svc, visits[1..], r)
    ensures rewards <= r
    ensures NamesUnique(rewards) ==> NamesUnique(r)
    ensures forall k :: |rewards| <= k < |r| ==> Justified(svc, userId, visits, r[k])
    ensures Covers(svc, visits, r)
  {
    var v := visits[0];
    forall k | |rewards| <= k < |r|
      ensures Justified(svc, userId, visits, r[k])
    {
      if k < |c| {
        assert r[k] == c[k];
      } else {
        assert r[k].visitedLocation in visits[1..];
      }
    }
    forall w, a | w in visits && a in svc.attractions && NearAttraction(svc, w, a)
      ensures RewardedName(r, a.attractionName)
    {
      if w == v {
        RewardedInExtension(c, r, a.attractionName);
      } else {
        assert w in visits[1..];
      }
    }
  }

  /** The reward calculation of one user over a snapshot of their history. History and
      identity are untouched; rewards only grow at the end; the name-uniqueness invariant
      is kept; every new reward is justified; every near pair ends up rewarded by name. */
  function CalculateRewards(svc: RewardsService, user: User): (r: User)
    ensures r.userId == user.userId && r.userName == user.userName
    ensures r.visitedLocations == user.visitedLocations
    ensures user.userRewards <= r.userRewards
    ensures NamesUnique(user.userRewards) ==> NamesUnique(r.userRewards)
    ensures forall k :: |user.userRewards| <= k < |r.userRewards| ==>
              Justified(svc, user.userId, user.visitedLocations, r.userRewards[k])
    ensures Covers(svc, user.visitedLocations, r.userRewards)
  {
    user.(userRewards := ScanVisits(svc, user.userId, user.userRewards, user.visitedLocations))
  }

  // ---------------------------------------------------------------------------
  // Properties
  // ---------------------------------------------------------------------------

  /** A reward list that already covers a visit leaves the inner loop with nothing to add. */
  lemma {:induction false} ScanCatalogCovered(svc: RewardsService, userId: Uuid, rewards: seq<UserReward>, v: VisitedLocation, attractions: seq<Attraction>)
    requires forall a :: a in attractions && NearAttraction(svc, v, a) ==> RewardedName(rewards, a.attractionName)
    ensures ScanCatalog(svc, userId, rewards, v, attractions) == rewards
    decreases |attractions|
  {
    if |attractions| > 0 {
      assert Grant(svc, userId, rewards, v, attractions[0]) == rewards;
      ScanCatalogCovered(svc, userId, rewards, v, attractions[1..]);
    }
  }

  /** A reward list that covers the whole history leaves the outer loop with nothing to add. */
  lemma {:induction false} ScanVisitsCovered(svc: RewardsService, userId: Uuid, rewards: seq<UserReward>, visits: seq<VisitedLocation>)
    requires Covers(svc, visits, rewards)
    ensures ScanVisits(svc, userId, rewards, visits) == rewards
    decreases |visits|
  {
    if |visits| > 0 {
      ScanCatalogCovered(svc, userId, rewards, visits[0], svc.attractions);
      assert Covers(svc, visits[1..], rewards);
      ScanVisitsCovered(svc, userId, rewards, visits[1..]);
    }
  }

  /** Running the calculation a second time, with the history unchanged, adds nothing. */
  lemma CalculateRewardsIdempotent(svc: RewardsService, user: User)
    ensures CalculateRewards(svc, CalculateRewards(svc, user)) == CalculateRewards(svc, user)
  {
    var once := CalculateRewards(svc, user);
    ScanVisitsCovered(svc, once.userId, once.userRewards, once.visitedLocations);
  }

  /** After the calculation, a name is rewarded exactly when it was rewarded before or some
      visited location is near some catalog attraction of that name. */
  lemma RewardedNamesAfterCalculation(svc: RewardsService, user: User, name: string)
    ensures RewardedName(CalculateRewards(svc, user).userRewards, name)
        <==> RewardedName(user.userRewards, name) || Earned(svc, user.visitedLocations, name)
  {
    var before := user.userRewards;
    var after := CalculateRewards(svc, user).userRewards;
    if RewardedName(after, name) {
      var i :| 0 <= i < |after| && after[i].attraction.attractionName == name;
      if i >= |before| {
        assert Justified(svc, user.userId, user.visitedLocations, after[i]);
        var v, a := after[i].visitedLocation, after[i].attraction;
        assert v in user.visitedLocations && a in svc.attractions && a.attractionName == name && NearAttraction(svc, v, a);
      } else {
        assert before[i] == after[i];
      }
    }
    if RewardedName(before, name) {
      RewardedInExtension(before, after, name);
    }
  }

  /** Every reward the calculation adds is worth what `GetRewardPoints` answers for its
      attraction and the user. */
  lemma NewRewardPointsFromOracle(svc: RewardsService, user: User)
    ensures var after := CalculateRewards(svc, user).userRewards;
      forall k :: |user.userRewards| <= k < |after| ==>
        after[k].rewardPoints == GetRewardPoints(svc, after[k].attraction, user)
  {
  }

  /** Enlarging the proximity buffer can only add rewarded names. */
  lemma LargerBufferRewardsMore(svc: RewardsService, user: User, buffer: int, name: string)
    requires svc.proximityBuffer <= buffer
    ensures RewardedName(CalculateRewards(svc, user).userRewards, name)
        ==> RewardedName(CalculateRewards(SetProximityBuffer(svc, buffer), user).userRewards, name)
  {
    var wider := SetProximityBuffer(svc, buffer);
    RewardedNamesAfterCalculation(svc, user, name);
    RewardedNamesAfterCalculation(wider, user, name);
    if Earned(svc, user.visitedLocations, name) {
      var v, a :| v in user.visitedLocations && a in svc.attractions && a.attractionName == name && NearAttraction(svc, v, a);
      assert NearAttraction(wider, v, a);
    }
  }

  /** With a buffer that puts every attraction near every location, a user with any history
      ends up rewarded for every catalog attraction. */
  lemma EverythingNearRewardsWholeCatalog(svc: RewardsService, user: User)
    requires |user.visitedLocations| > 0
    requires forall a, v :: a in svc.attractions && v in user.visitedLocations ==> NearAttraction(svc, v, a)
    ensures forall a :: a in svc.attractions ==> RewardedName(CalculateRewards(svc, user).userRewards, a.attractionName)
  {
    var v := user.visitedLocations[0];
    assert v in user.visitedLocations;
  }

  /** The nearness threshold of a new service is the default buffer, inclusively. */
  lemma NewServiceUsesDefaultBuffer(getDistance: DistanceFn, rewardPoints: PointsOracle, catalog: seq<Attraction>, v: VisitedLocation, a: Attraction)
    ensures NearAttraction(NewRewardsService(getDistance, rewardPoints, catalog), v, a)
        <==> getDistance(a.AsLocation(), v.location) <= 10.0
  {
  }

  /** After `SetProximityBuffer(b)` nearness is decided by `b`, inclusively; the display range
      and everything else of the service are unaffected. */
  lemma SetProximityBufferGoverns(svc: RewardsService, buffer: int, v: VisitedLocation, a: Attraction, l: Location)
    ensures NearAttraction(SetProximityBuffer(svc, buffer), v, a) <==> svc.getDistance(a.AsLocation(), v.location) <= buffer as real
    ensures IsWithinAttractionProximity(SetProximityBuffer(svc, buffer), a, l) == IsWithinAttractionProximity(svc, a, l)
    ensures SetProximityBuffer(svc, buffer).attractions == svc.attractions
  {
  }

  /** The display range is 200 miles, inclusively. */
  lemma AttractionProximityIsTwoHundredMiles(svc: RewardsService, a: Attraction, l: Location)
    ensures IsWithinAttractionProximity(svc, a, l) <==> svc.getDistance(a.AsLocation(), l) <= 200.0
  {
  }
}
