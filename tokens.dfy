/**
 * The tokens table as a value: one record per guid (the primary key), each
 * token value used by at most one record (the UNIQUE column), and the
 * transitions that the store's INSERT, UPDATE and DELETE statements make.
 * A statement whose WHERE clause matches no row changes nothing.
 */
module Tokens {
  import opened Clock

  datatype Option<+T> = None | Some(value: T)

  /** One row: guid, token, group_guid, activation_date. */
  datatype Record = Record(guid: string, token: string, groupGuid: string, activation: int)

  /** The table, indexed by its primary key. */
  type Table = map<string, Record>

  /** Every record is stored under its own guid. */
  predicate KeyedByGuid(t: Table)
  {
    forall g :: g in t ==> t[g].guid == g
  }

  /** No two records carry the same token. */
  predicate TokensUnique(t: Table)
  {
    forall g, h :: g in t && h in t && g != h ==> t[g].token != t[h].token
  }

  /** The table invariant that the schema's two key constraints maintain. */
  predicate WellFormed(t: Table)
  {
    KeyedByGuid(t) && TokensUnique(t)
  }

  predicate TokenInUse(t: Table, token: string)
  {
    exists g :: g in t && t[g].token == token
  }

  /**
   * Inserting a fresh record activated at `now`. The insertion is refused
   * (None) exactly when the guid or the token is already taken.
   */
  function Insert(t: Table, guid: string, token: string, groupGuid: string, now: int): (r: Option<Table>)
    ensures r.None? <==> guid in t || TokenInUse(t, token)
    ensures r.Some? ==> r.value.Keys == t.Keys + {guid}
    ensures r.Some? ==> r.value[guid] == Record(guid, token, groupGuid, now)
    ensures r.Some? ==> forall g :: g in t ==> r.value[g] == t[g]
    ensures r.Some? && WellFormed(t) ==> WellFormed(r.value)
  {
    if guid in t || TokenInUse(t, token) then None
    else Some(t[guid := Record(guid, token, groupGuid, now)])
  }

  /** Resetting the activation of the record with this guid to `now`. */
  function Renew(t: Table, guid: string, now: int): (t': Table)
    ensures t'.Keys == t.Keys
    ensures guid in t ==> t'[guid] == t[guid].(activation := now)
    ensures forall g :: g in t && g != guid ==> t'[g] == t[g]
    ensures guid !in t ==> t' == t
    ensures WellFormed(t) ==> WellFormed(t')
  {
    if guid in t then t[guid := t[guid].(activation := now)] else t
  }

  /** Moving the record with this guid to another group. */
  function Regroup(t: Table, guid: string, newGroupGuid: string): (t': Table)
    ensures t'.Keys == t.Keys
    ensures guid in t ==> t'[guid] == t[guid].(groupGuid := newGroupGuid)
    ensures forall g :: g in t && g != guid ==> t'[g] == t[g]
    ensures guid !in t ==> t' == t
    ensures WellFormed(t) ==> WellFormed(t')
  {
    if guid in t then t[guid := t[guid].(groupGuid := newGroupGuid)] else t
  }

  /** Removing the record with this guid, if there is one. */
  function Remove(t: Table, guid: string): (t': Table)
    ensures t'.Keys == t.Keys - {guid}
    ensures forall g :: g in t' ==> t'[g] == t[g]
    ensures guid !in t ==> t' == t
    ensures WellFormed(t) ==> WellFormed(t')
  {
    t - {guid}
  }

  /**
   * What the store reports about one user: whole days left in the window,
   * the calendar day of activation, the user's guid and the group's guid.
   */
  datatype UserInfo = UserInfo(remainingDays: int, activationDay: int, userGuid: string, groupGuid: string)

  /** The report for `guid` at time `now`; None when there is no such record. */
  function InfoOf(t: Table, guid: string, now: int): (r: Option<UserInfo>)
    ensures r.None? <==> guid !in t
    ensures r.Some? ==> r.value.userGuid == guid && r.value.groupGuid == t[guid].groupGuid
    ensures r.Some? ==> r.value.remainingDays == RemainingDays(t[guid].activation, now)
    ensures r.Some? ==> r.value.activationDay == CalendarDay(t[guid].activation)
  {
    if guid in t then
      var rec := t[guid];
      Some(UserInfo(RemainingDays(rec.activation, now), CalendarDay(rec.activation), guid, rec.groupGuid))
    else
      None
  }

  /** One line of the expiry report: the user and the token that has expired. */
  datatype Expired = Expired(guid: string, token: string)

  /** The expiry sweep at `now` reports `e` exactly when this holds. */
  predicate Reported(t: Table, now: int, e: Expired)
  {
    e.guid in t && t[e.guid].token == e.token && IsExpired(t[e.guid].activation, now)
  }

  /** A newly issued token reports the full window, today's date and its group. */
  lemma InfoAfterInsert(t: Table, guid: string, token: string, groupGuid: string, now: int)
    requires Insert(t, guid, token, groupGuid, now).Some?
    ensures InfoOf(Insert(t, guid, token, groupGuid, now).value, guid, now)
         == Some(UserInfo(ValidityDays, CalendarDay(now), guid, groupGuid))
  {
    RemainingAtActivation(now);
  }

  /**
   * Once a record is in, a second insertion with the same guid fails, and so
   * does one that reuses its token under a different guid.
   */
  lemma InsertTwiceFails(t: Table, guid: string, token: string, groupGuid: string, now: int,
                         otherGuid: string, otherToken: string, otherGroup: string, later: int)
    requires Insert(t, guid, token, groupGuid, now).Some?
    ensures Insert(Insert(t, guid, token, groupGuid, now).value, guid, otherToken, otherGroup, later).None?
    ensures Insert(Insert(t, guid, token, groupGuid, now).value, otherGuid, token, otherGroup, later).None?
  {
    var t' := Insert(t, guid, token, groupGuid, now).value;
    assert t'[guid].token == token;
  }

  /** Renewal brings the remaining days back to the full window, however low they were. */
  lemma RenewRestoresWindow(t: Table, guid: string, now: int)
    requires guid in t
    ensures InfoOf(Renew(t, guid, now), guid, now)
         == Some(UserInfo(ValidityDays, CalendarDay(now), guid, t[guid].groupGuid))
    ensures !IsExpired(Renew(t, guid, now)[guid].activation, now)
  {
    RemainingAtActivation(now);
  }

  /** Regrouping changes the reported group and nothing else of the record. */
  lemma RegroupKeepsOtherFields(t: Table, guid: string, newGroupGuid: string, now: int)
    requires guid in t
    ensures Regroup(t, guid, newGroupGuid)[guid].token == t[guid].token
    ensures InfoOf(Regroup(t, guid, newGroupGuid), guid, now)
         == Some(InfoOf(t, guid, now).value.(groupGuid := newGroupGuid))
  {
  }

  /**
   * After a deletion the guid reports nothing, and renewing, regrouping or
   * deleting it again changes nothing.
   */
  lemma RemoveThenNoOps(t: Table, guid: string, newGroupGuid: string, now: int)
    ensures InfoOf(Remove(t, guid), guid, now).None?
    ensures Renew(Remove(t, guid), guid, now) == Remove(t, guid)
    ensures Regroup(Remove(t, guid), guid, newGroupGuid) == Remove(t, guid)
    ensures Remove(Remove(t, guid), guid) == Remove(t, guid)
  {
  }

  /**
   * The expiry sweep reports a token activated 31 days before `now` and does
   * not report one activated at `now`.
   */
  lemma SweepReportsBackdated(t: Table, guid: string, token: string, groupGuid: string, now: int)
    requires guid !in t && !TokenInUse(t, token)
    ensures Reported(Insert(t, guid, token, groupGuid, now - 31 * MicrosPerDay).value, now, Expired(guid, token))
    ensures !Reported(Insert(t, guid, token, groupGuid, now).value, now, Expired(guid, token))
  {
  }
}
