/**
 The value types that the tracking and reward services exchange: positions,
 catalog attractions, visited locations, rewards, users and the nearby-attraction
 record, plus the types of the three external collaborators (distance, GPS fetch,
 reward-points oracle), which the services receive as plain functions.
 */
module Domain {

  /** UUIDs (user and attraction identifiers), kept in their canonical textual form. */
  type Uuid = string

  /** A pair of coordinates in degrees. A value type: no identity. */
  datatype Location = Location(latitude: real, longitude: real)

  /** A catalog point of interest. In the location library an attraction IS a
      location, so distance functions accept it through `AsLocation`. */
  datatype Attraction = Attraction(
    attractionName: string,
    city: string,
    state: string,
    attractionId: Uuid,
    latitude: real,
    longitude: real)
  {
    function AsLocation(): Location {
      Location(latitude, longitude)
    }
  }

  /** One entry of a user's history: who, where and when (epoch milliseconds). */
  datatype VisitedLocation = VisitedLocation(userId: Uuid, location: Location, timeVisited: int)

  /** A reward earned for being near `attraction` at `visitedLocation`. */
  datatype UserReward = UserReward(visitedLocation: VisitedLocation, attraction: Attraction, rewardPoints: int)

  /** A user of the service. History and rewards are ordered and append-only;
      the last history entry is the user's current position. */
  datatype User = User(
    userId: Uuid,
    userName: string,
    visitedLocations: seq<VisitedLocation>,
    userRewards: seq<UserReward>)
  {
    function LastVisitedLocation(): VisitedLocation
      requires |visitedLocations| > 0
    {
      visitedLocations[|visitedLocations| - 1]
    }

    function AddToVisitedLocations(v: VisitedLocation): User {
      this.(visitedLocations := visitedLocations + [v])
    }

    function AddUserReward(r: UserReward): User {
      this.(userRewards := userRewards + [r])
    }
  }

  /** What the nearby-attractions endpoint reports about one attraction. */
  datatype NearbyAttractionDto = NearbyAttractionDto(
    attractionName: string,
    attractionLocation: Location,
    userLocation: Location,
    distance: real,
    rewardPoints: int)

  /** A value that may be missing (a `null` lookup result). */
  datatype Option<T> = None | Some(value: T)

  /** Distance in statute miles between two locations (the trigonometric formula is abstracted away). */
  type DistanceFn = (Location, Location) -> real

  /** Reward points for (attraction id, user id), as the reward-points service answers them. */
  type PointsOracle = (Uuid, Uuid) -> int

  /** The GPS service: the current visited location of a user id. */
  type GpsOracle = Uuid -> VisitedLocation
}
