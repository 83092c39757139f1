/**
 The tour-guide service: the in-memory user registry, location tracking (fetch a
 position, append it to the history, then run the reward calculation to completion),
 the current-location lookup, and the five nearest attractions with their details.

 Users are values here: an operation that changes a user returns the changed user.
 Tracking many users runs the single-user tracking once per user, in list order.
 */
module TourGuide {
  import opened Domain
  import opened Rewards
  import Ranking

  /** How many attractions the nearby-attractions query returns. */
  const NbOfNearbyAttractions: nat := 5

  /** The collaborators of the service: the GPS service and the reward service
      (which also holds the attraction catalog and the distance function). */
  datatype TourGuideService = TourGuideService(gps: GpsOracle, rewardsService: RewardsService)

  /** User name to user. */
  type Registry = map<string, User>

  /** A user after an operation, with the visited location the operation returned. */
  datatype Tracked = Tracked(user: User, visitedLocation: VisitedLocation)

  /** The details list of the nearby-attractions query, with the user after the lookup
      of their current location. */
  datatype NearbyInfo = NearbyInfo(user: User, dtos: seq<NearbyAttractionDto>)

  // ---------------------------------------------------------------------------
  // The user registry
  // ---------------------------------------------------------------------------

  /** Every entry is filed under its own user name. */
  ghost predicate WellKeyed(reg: Registry) {
    forall name :: name in reg ==> reg[name].userName == name
  }

  function GetUser(reg: Registry, userName: string): (r: Option<User>)
    ensures r.Some? <==> userName in reg
    ensures r.Some? ==> r.value == reg[userName]
  {
    if userName in reg then Some(reg[userName]) else None
  }

  /** Inserts `user` under its name unless that name is taken; an existing entry is never replaced. */
  function AddUser(reg: Registry, user: User): (r: Registry)
    ensures r.Keys == reg.Keys + {user.userName}
    ensures forall name :: name in reg ==> r[name] == reg[name]
    ensures user.userName !in reg ==> r[user.userName] == user
  {
    if user.userName !in reg then reg[user.userName := user] else reg
  }

  /** All registered users, one per entry, in the map's own (unspecified) order. The ghost
      `names` lists the entry each user came from. */
  method GetAllUsers(reg: Registry) returns (users: seq<User>, ghost names: seq<string>)
    ensures |users| == |names| == |reg|
    ensures forall i :: 0 <= i < |names| ==> names[i] in reg && users[i] == reg[names[i]]
    ensures forall i, j :: 0 <= i < j < |names| ==> names[i] != names[j]
    ensures forall name :: name in reg ==> reg[name] in users
  {
    var rest := reg.Keys;
    users, names := [], [];
    while rest != {}
      invariant rest <= reg.Keys
      invariant |users| == |names|
      invariant |names| + |rest| == |reg.Keys|
      invariant forall i :: 0 <= i < |names| ==> names[i] in reg.Keys - rest && users[i] == reg[names[i]]
      invariant forall i, j :: 0 <= i < j < |names| ==> names[i] != names[j]
      invariant forall name :: name in reg.Keys - rest ==> reg[name] in users
      decreases rest
    {
      var name :| name in rest;
      users, names := users + [reg[name]], names + [name];
      rest := rest - {name};
    }
    assert |reg| == |reg.Keys|;
  }

  /** Adding a user under a name already taken changes nothing; adding it again is a no-op. */
  lemma AddUserIdempotent(reg: Registry, user: User)
    ensures user.userName in reg ==> AddUser(reg, user) == reg
    ensures AddUser(AddUser(reg, user), user) == AddUser(reg, user)
  {
  }

  /** A user added under a fresh name is found by that name, and only that entry is new. */
  lemma AddThenGetUser(reg: Registry, user: User)
    requires user.userName !in reg
    ensures GetUser(AddUser(reg, user), user.userName) == Some(user)
    ensures forall name :: name != user.userName ==> GetUser(AddUser(reg, user), name) == GetUser(reg, name)
    ensures user in AddUser(reg, user).Values
  {
    assert AddUser(reg, user)[user.userName] == user;
  }

  /** Insertion keeps every entry filed under its own name. */
  lemma AddUserKeepsWellKeyed(reg: Registry, user: User)
    requires WellKeyed(reg)
    ensures WellKeyed(AddUser(reg, user))
  {
  }

  // ---------------------------------------------------------------------------
  // Tracking
  // ---------------------------------------------------------------------------

  /** Fetches the user's position, appends it to the history, runs the reward calculation
      to completion and returns the fetched location. */
  function TrackUserLocation(tg: TourGuideService, user: User): (r: Tracked)
    ensures r.visitedLocation == tg.gps(user.userId)
    ensures r.user.visitedLocations == user.visitedLocations + [r.visitedLocation]
    ensures r.user.userId == user.userId && r.user.userName == user.userName
    ensures user.userRewards <= r.user.userRewards
    ensures NamesUnique(user.userRewards) ==> NamesUnique(r.user.userRewards)
    ensures forall k :: |user.userRewards| <= k < |r.user.userRewards| ==>
              Justified(tg.rewardsService, user.userId, r.user.visitedLocations, r.user.userRewards[k])
    ensures Covers(tg.rewardsService, r.user.visitedLocations, r.user.userRewards)
  {
    var visitedLocation := tg.gps(user.userId);
    var moved := user.AddToVisitedLocations(visitedLocation);
    assert visitedLocation in moved.visitedLocations;
    Tracked(CalculateRewards(tg.rewardsService, moved), visitedLocation)
  }

  /** Tracks each user of the list once. */
  function TrackUsersLocations(tg: TourGuideService, users: seq<User>): (r: seq<User>)
    ensures |r| == |users|
    ensures forall i :: 0 <= i < |users| ==> r[i] == TrackUserLocation(tg, users[i]).user
  {
    if |users| == 0 then []
    else [TrackUserLocation(tg, users[0]).user] + TrackUsersLocations(tg, users[1..])
  }

  /** The user's current position: the last history entry, or, for an empty history,
      a fresh tracking of the user. */
  function GetUserLocation(tg: TourGuideService, user: User): (r: Tracked)
    ensures |user.visitedLocations| > 0 ==> r.user == user && r.visitedLocation == user.LastVisitedLocation()
    ensures |user.visitedLocations| == 0 ==>
              r.user.visitedLocations == [r.visitedLocation] && r.visitedLocation == tg.gps(user.userId)
    ensures |user.visitedLocations| == 0 ==> r == TrackUserLocation(tg, user)
    ensures |r.user.visitedLocations| > 0 && r.user.LastVisitedLocation() == r.visitedLocation
  {
    if |user.visitedLocations| > 0 then Tracked(user, user.LastVisitedLocation())
    else TrackUserLocation(tg, user)
  }

  /** When the GPS answers for the user asked about, the tracked location belongs to that user. */
  lemma TrackedLocationBelongsToUser(tg: TourGuideService, user: User)
    requires tg.gps(user.userId).userId == user.userId
    ensures TrackUserLocation(tg, user).visitedLocation.userId == user.userId
    ensures |user.visitedLocations| == 0 ==> GetUserLocation(tg, user).visitedLocation.userId == user.userId
  {
  }

  /** Right after tracking, the current-location lookup returns the tracked location and
      changes nothing. */
  lemma TrackThenGetUserLocation(tg: TourGuideService, user: User)
    ensures var t := TrackUserLocation(tg, user); GetUserLocation(tg, t.user) == t
  {
  }

  /** A second current-location lookup returns the same location and changes nothing more. */
  lemma GetUserLocationIdempotent(tg: TourGuideService, user: User)
    ensures var t := GetUserLocation(tg, user); GetUserLocation(tg, t.user) == t
  {
  }

  // ---------------------------------------------------------------------------
  // Nearby attractions
  // ---------------------------------------------------------------------------

  /** Distance from `origin` to an attraction, in the argument order the query uses. */
  function DistanceTo(tg: TourGuideService, origin: Location, a: Attraction): real {
    tg.rewardsService.getDistance(origin, a.AsLocation())
  }

  function DistanceFrom(tg: TourGuideService, origin: Location): Attraction -> real {
    a => DistanceTo(tg, origin, a)
  }

  /** The catalog, stably sorted by distance from the visited location, cut to five. */
  function GetNearByAttractions(tg: TourGuideService, visitedLocation: VisitedLocation): (r: seq<Attraction>)
    ensures var catalog := tg.rewardsService.attractions;
      && |r| == (if |catalog| < NbOfNearbyAttractions then |catalog| else NbOfNearbyAttractions)
      && multiset(r) <= multiset(catalog)
      && Ranking.SortedBy(r, DistanceFrom(tg, visitedLocation.location))
      && (forall x, i :: x in multiset(catalog) - multiset(r) && 0 <= i < |r| ==>
            DistanceTo(tg, visitedLocation.location, r[i]) <= DistanceTo(tg, visitedLocation.location, x))
      && (forall d :: Ranking.KeyClass(r, DistanceFrom(tg, visitedLocation.location), d)
                      <= Ranking.KeyClass(catalog, DistanceFrom(tg, visitedLocation.location), d))
      && (Ranking.Distinct(catalog) ==> Ranking.Distinct(r))
  {
    Ranking.Smallest(tg.rewardsService.attractions, DistanceFrom(tg, visitedLocation.location), NbOfNearbyAttractions)
  }

  /** The details of one attraction as seen from the user's location. */
  function AttractionInfo(tg: TourGuideService, user: User, userLocation: Location, a: Attraction): NearbyAttractionDto {
    NearbyAttractionDto(
      a.attractionName,
      a.AsLocation(),
      userLocation,
      DistanceTo(tg, userLocation, a),
      GetRewardPoints(tg.rewardsService, a, user))
  }

  /** One record per given attraction, in order, all measured from the user's current
      position (which the lookup may first have to track). */
  function GetNearByAttractionsInfo(tg: TourGuideService, user: User, attractions: seq<Attraction>): (r: NearbyInfo)
    ensures r.user == GetUserLocation(tg, user).user
    ensures |r.user.visitedLocations| > 0
    ensures |r.dtos| == |attractions|
    ensures forall i :: 0 <= i < |attractions| ==>
              var dto, a, here := r.dtos[i], attractions[i], r.user.LastVisitedLocation().location;
              && dto.attractionName == a.attractionName
              && dto.attractionLocation == Location(a.latitude, a.longitude)
              && dto.userLocation == here
              && dto.distance == tg.rewardsService.getDistance(here, dto.attractionLocation)
              && dto.rewardPoints == tg.rewardsService.rewardPoints(a.attractionId, user.userId)
  {
    var current := GetUserLocation(tg, user);
    var userLocation := current.visitedLocation.location;
    NearbyInfo(current.user, seq(|attractions|, i requires 0 <= i < |attractions| =>
      AttractionInfo(tg, current.user, userLocation, attractions[i])))
  }
}
