/** `enhance_user_data_with_coordinates` (app.py): every uploaded row is looked up by its `Area`
    in the location database. A hit copies the row with the found coordinates into the enhanced
    table; a miss records the area name in the list of missing locations. The database search
    (a case-insensitive SQL `LIKE` match, first hit) is the parameter `lookup`. */
module Enrichment {
  import opened Records

  /** An uploaded row before enrichment: its `User` and `Area` columns. */
  datatype UserRecord = UserRecord(user: string, area: string)

  /** `db.search_location_by_area`: the coordinates of the first matching area, if any. */
  type Lookup = string -> Option<Point>

  /** The enhanced rows for `users`, in input order. */
  function Enhanced(users: seq<UserRecord>, lookup: Lookup): seq<Participant> {
    if users == [] then []
    else
      var u := users[|users| - 1];
      var front := Enhanced(users[..|users| - 1], lookup);
      match lookup(u.area)
      case Some(loc) => front + [Participant(u.user, u.area, loc)]
      case None => front
  }

  /** The area names that were not found, in input order. */
  function Missing(users: seq<UserRecord>, lookup: Lookup): seq<string> {
    if users == [] then []
    else
      var u := users[|users| - 1];
      var front := Missing(users[..|users| - 1], lookup);
      if lookup(u.area).None? then front + [u.area] else front
  }

  /** The loop over `user_df.iterrows()`, appending to `enhanced_data` or `missing_locations`. */
  method EnhanceWithCoordinates(users: seq<UserRecord>, lookup: Lookup)
    returns (enhanced: seq<Participant>, missing: seq<string>)
    ensures enhanced == Enhanced(users, lookup)
    ensures missing == Missing(users, lookup)
  {
    enhanced, missing := [], [];
    for i := 0 to |users|
      invariant enhanced == Enhanced(users[..i], lookup)
      invariant missing == Missing(users[..i], lookup)
    {
      assert users[..i + 1][..i] == users[..i];
      var areaName := users[i].area;
      var locationData := lookup(areaName);
      if locationData.Some? {
        enhanced := enhanced + [Participant(users[i].user, areaName, locationData.value)];
      } else {
        missing := missing + [areaName];
      }
    }
    assert users[..|users|] == users;
  }

  /** Every row goes to exactly one of the two lists. */
  lemma {:induction false} EnrichmentPartitions(users: seq<UserRecord>, lookup: Lookup)
    ensures |Enhanced(users, lookup)| + |Missing(users, lookup)| == |users|
  {
    if users != [] {
      EnrichmentPartitions(users[..|users| - 1], lookup);
    }
  }

  /** Enrichment works row by row: the lists for a concatenation are the concatenations of the
      lists, so input order is kept in both. */
  lemma {:induction false} EnrichmentDistributes(a: seq<UserRecord>, b: seq<UserRecord>, lookup: Lookup)
    ensures Enhanced(a + b, lookup) == Enhanced(a, lookup) + Enhanced(b, lookup)
    ensures Missing(a + b, lookup) == Missing(a, lookup) + Missing(b, lookup)
  {
    if b == [] {
      assert a + b == a;
    } else {
      var b' := b[..|b| - 1];
      assert (a + b)[..|a + b| - 1] == a + b';
      assert (a + b)[|a + b| - 1] == b[|b| - 1];
      EnrichmentDistributes(a, b', lookup);
    }
  }

  /** A found row carries the coordinates the database gave for its area; a missing area belongs
      to an input row whose area the database does not know. */
  lemma {:induction false} EnrichmentSound(users: seq<UserRecord>, lookup: Lookup)
    ensures forall p | p in Enhanced(users, lookup) ::
      UserRecord(p.user, p.area) in users && lookup(p.area) == Some(p.loc)
    ensures forall a | a in Missing(users, lookup) :: lookup(a).None? && exists u | u in users :: u.area == a
  {
    if users != [] {
      var front := users[..|users| - 1];
      EnrichmentSound(front, lookup);
      assert forall u | u in front :: u in users;
      assert users[|users| - 1] in users;
    }
  }

  /** Every input row is accounted for: enhanced with its area's coordinates when the database
      knows the area, listed as missing otherwise. */
  lemma {:induction false} EnrichmentComplete(users: seq<UserRecord>, lookup: Lookup)
    ensures forall u | u in users && lookup(u.area).Some? ::
      Participant(u.user, u.area, lookup(u.area).value) in Enhanced(users, lookup)
    ensures forall u | u in users && lookup(u.area).None? :: u.area in Missing(users, lookup)
  {
    if users != [] {
      var front := users[..|users| - 1];
      EnrichmentComplete(front, lookup);
      assert forall u | u in users :: u in front || u == users[|users| - 1];
    }
  }
}
