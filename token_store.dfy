/**
 * The token store: one database holding (once it has been initialised) the
 * tokens table. Each operation is one transaction: it either applies in full
 * or leaves the table as it was. The clock is the `now` argument.
 */
module TokenStore {
  import opened Clock
  import opened Tokens

  /** Why an operation failed: a key constraint, or the table was never created. */
  datatype StoreError = DuplicateKey | NoSuchTable

  /** What a statement that returns no rows reports. */
  datatype Outcome = Done | Failed(error: StoreError)

  /** What a query reports. */
  datatype Result<T> = Ok(value: T) | Err(error: StoreError)

  class TokenDatabase {
    /** Whether the tokens table has been created. */
    var hasTable: bool
    /** The rows of the tokens table, by guid. */
    var rows: Table

    ghost predicate Valid()
      reads this
    {
      WellFormed(rows) && (!hasTable ==> rows == map[])
    }

    /** A database in which the tokens table does not exist yet. */
    constructor ()
      ensures Valid() && !hasTable && rows == map[]
    {
      hasTable := false;
      rows := map[];
    }

    /**
     * Creates the table when it is missing; on a database that already has
     * it, every record stays as it was.
     */
    method InitDb()
      requires Valid()
      modifies this
      ensures Valid() && hasTable
      ensures rows == old(rows)
      ensures !old(hasTable) ==> rows == map[]
    {
      if !hasTable {
        hasTable := true;
        rows := map[];
      }
    }

    /**
     * Issues `token` to `guid` in group `groupGuid`, activated at `now`.
     * Fails with DuplicateKey, changing nothing, when the guid or the token is
     * already stored.
     */
    method AddToken(guid: string, token: string, groupGuid: string, now: int) returns (outcome: Outcome)
      requires Valid()
      modifies this
      ensures Valid() && hasTable == old(hasTable)
      ensures outcome == if !old(hasTable) then Failed(NoSuchTable)
                         else if guid in old(rows) || TokenInUse(old(rows), token) then Failed(DuplicateKey)
                         else Done
      ensures outcome.Failed? ==> rows == old(rows)
      ensures outcome == Done ==> rows == old(rows)[guid := Record(guid, token, groupGuid, now)]
    {
      if !hasTable {
        return Failed(NoSuchTable);
      }
      var inserted := Insert(rows, guid, token, groupGuid, now);
      if inserted.None? {
        return Failed(DuplicateKey);
      }
      rows := inserted.value;
      outcome := Done;
    }

    /**
     * Resets the activation of `guid` to `now`. Only that record's activation
     * changes; an unknown guid changes nothing and is not an error.
     */
    method ExtendToken(guid: string, now: int) returns (outcome: Outcome)
      requires Valid()
      modifies this
      ensures Valid() && hasTable == old(hasTable)
      ensures outcome == if old(hasTable) then Done else Failed(NoSuchTable)
      ensures rows == Renew(old(rows), guid, now)
    {
      if !hasTable {
        return Failed(NoSuchTable);
      }
      rows := Renew(rows, guid, now);
      outcome := Done;
    }

    /** Deletes the record of `guid`; an unknown guid changes nothing. */
    method DeleteToken(guid: string) returns (outcome: Outcome)
      requires Valid()
      modifies this
      ensures Valid() && hasTable == old(hasTable)
      ensures outcome == if old(hasTable) then Done else Failed(NoSuchTable)
      ensures rows == Remove(old(rows), guid)
    {
      if !hasTable {
        return Failed(NoSuchTable);
      }
      rows := Remove(rows, guid);
      outcome := Done;
    }

    /**
     * Moves `guid` to group `newGroupGuid`. Only that record's group changes;
     * an unknown guid changes nothing and is not an error.
     */
    method ChangeGroupGuid(guid: string, newGroupGuid: string) returns (outcome: Outcome)
      requires Valid()
      modifies this
      ensures Valid() && hasTable == old(hasTable)
      ensures outcome == if old(hasTable) then Done else Failed(NoSuchTable)
      ensures rows == Regroup(old(rows), guid, newGroupGuid)
    {
      if !hasTable {
        return Failed(NoSuchTable);
      }
      rows := Regroup(rows, guid, newGroupGuid);
      outcome := Done;
    }

    /**
     * Every row of the table, each exactly once, in whatever order the
     * storage yields them.
     */
    method GetAllTokens() returns (r: Result<seq<Record>>)
      requires Valid()
      ensures r.Err? <==> !hasTable
      ensures r.Err? ==> r.error == NoSuchTable
      ensures r.Ok? ==> forall i :: 0 <= i < |r.value| ==> r.value[i].guid in rows && rows[r.value[i].guid] == r.value[i]
      ensures r.Ok? ==> forall g :: g in rows ==> rows[g] in r.value
      ensures r.Ok? ==> forall i, j :: 0 <= i < j < |r.value| ==> r.value[i].guid != r.value[j].guid
      ensures r.Ok? ==> |r.value| == |rows|
    {
      if !hasTable {
        return Err(NoSuchTable);
      }
      var pending := rows.Keys;
      var listed: seq<Record> := [];
      while pending != {}
        invariant pending <= rows.Keys
        invariant forall i :: 0 <= i < |listed| ==> listed[i].guid in rows && listed[i].guid !in pending && rows[listed[i].guid] == listed[i]
        invariant forall g :: g in rows && g !in pending ==> rows[g] in listed
        invariant forall i, j :: 0 <= i < j < |listed| ==> listed[i].guid != listed[j].guid
        invariant |listed| + |pending| == |rows.Keys|
        decreases pending
      {
        var g :| g in pending;
        listed := listed + [rows[g]];
        pending := pending - {g};
      }
      r := Ok(listed);
    }

    /**
     * The expiry sweep at `now`: walks every row and reports, once each, the
     * (guid, token) of exactly those records whose 30-day window has run out.
     * The table is only read.
     */
    method CheckTokenExpiration(now: int) returns (r: Result<seq<Expired>>)
      requires Valid()
      ensures r.Err? <==> !hasTable
      ensures r.Err? ==> r.error == NoSuchTable
      ensures r.Ok? ==> forall e :: e in r.value <==> Reported(rows, now, e)
      ensures r.Ok? ==> forall i, j :: 0 <= i < j < |r.value| ==> r.value[i].guid != r.value[j].guid
    {
      var listing := GetAllTokens();
      if listing.Err? {
        return Err(listing.error);
      }
      var cursor := listing.value;
      var expired: seq<Expired> := [];
      for i := 0 to |cursor|
        invariant forall e :: e in expired ==> Reported(rows, now, e)
        invariant forall j :: 0 <= j < i && IsExpired(cursor[j].activation, now) ==> Expired(cursor[j].guid, cursor[j].token) in expired
        invariant forall k :: 0 <= k < |expired| ==> exists j :: 0 <= j < i && cursor[j].guid == expired[k].guid
        invariant forall k, l :: 0 <= k < l < |expired| ==> expired[k].guid != expired[l].guid
      {
        var row := cursor[i];
        if IsExpired(row.activation, now) {
          expired := expired + [Expired(row.guid, row.token)];
        }
      }
      forall e | Reported(rows, now, e)
        ensures e in expired
      {
        assert rows[e.guid] in cursor;
      }
      r := Ok(expired);
    }

    /**
     * The report for `guid` at time `now`: None exactly when no record has
     * that guid, otherwise the remaining whole days, the activation day, the
     * guid and the group.
     */
    method GetUserInfo(guid: string, now: int) returns (r: Result<Option<UserInfo>>)
      requires Valid()
      ensures r.Err? <==> !hasTable
      ensures r.Err? ==> r.error == NoSuchTable
      ensures r.Ok? ==> r.value == InfoOf(rows, guid, now)
    {
      if !hasTable {
        return Err(NoSuchTable);
      }
      r := Ok(InfoOf(rows, guid, now));
    }
  }
  /**
   * The demonstration run, on a database that has no tokens table yet:
   * create the table, issue token_123 to user_guid_1 in group_guid_1, read
   * the report, renew, list every row, move the user to new_group_guid and
   * read the report again. Each step reads the clock afresh; the instants
   * are `issued`, `firstRead`, `renewed` and `lastRead`. With a clock that
   * does not step back, the first report shows 30 days only when it reads
   * the issuing instant itself; any time later within the first day it
   * already shows 29.
   */
  method RunDemo(issued: int, firstRead: int, renewed: int, lastRead: int)
    returns (first: Result<Option<UserInfo>>, listing: Result<seq<Record>>, last: Result<Option<UserInfo>>)
    ensures first == Ok(Some(UserInfo(RemainingDays(issued, firstRead), CalendarDay(issued), "user_guid_1", "group_guid_1")))
    ensures issued <= firstRead ==> (first.value.value.remainingDays == ValidityDays <==> firstRead == issued)
    ensures issued < firstRead <= issued + MicrosPerDay ==> first.value.value.remainingDays == ValidityDays - 1
    ensures listing == Ok([Record("user_guid_1", "token_123", "group_guid_1", renewed)])
    ensures last == Ok(Some(UserInfo(RemainingDays(renewed, lastRead), CalendarDay(renewed), "user_guid_1", "new_group_guid")))
  {
    var db := new TokenDatabase();
    db.InitDb();
    var added := db.AddToken("user_guid_1", "token_123", "group_guid_1", issued);
    assert db.rows == map["user_guid_1" := Record("user_guid_1", "token_123", "group_guid_1", issued)];
    first := db.GetUserInfo("user_guid_1", firstRead);
    if issued < firstRead <= issued + MicrosPerDay {
      RemainingJustAfterActivation(issued, firstRead);
    }
    var extended := db.ExtendToken("user_guid_1", renewed);
    var stored := Record("user_guid_1", "token_123", "group_guid_1", renewed);
    assert db.rows == map["user_guid_1" := stored];
    listing := db.GetAllTokens();
    var rows := listing.value;
    assert |rows| == 1 && rows[0] == stored;
    assert rows == [stored];
    var changed := db.ChangeGroupGuid("user_guid_1", "new_group_guid");
    last := db.GetUserInfo("user_guid_1", lastRead);
  }
}
