/** A serving host's persisted discovery announcement (`sync_driver.rs`). */
module Advertisement {
  import opened Options
  import opened Bytes

  /** Who an announcement is sealed for and where it is published. */
  datatype Identity = Identity(tag: Text, node: Text, service: Text, relay: string)

  type Stamp = Option<Text>

  datatype Record = Record(identity: Identity, stamp: Stamp, envelope: Option<Text>,
                           publishedAt: Option<int>, ttl: nat)

  datatype Publication = Publication(identity: Identity, envelope: Text, ttl: nat)

  datatype Sealed = Sealed(bytes: Text, recipients: nat)

  datatype PublishState = NotAttempted | Published | Refused | Uncertain

  // ---------------------------------------------------------------------------------------------
  // Pure parts

  const RENEW_AFTER_NUM := 1
  const RENEW_AFTER_DEN := 2
  const MAX_ANNOUNCEMENT_BYTES := 2048

  function RenewAfterMs(ttl: nat): nat {
    ttl * RENEW_AFTER_NUM / RENEW_AFTER_DEN * 1000
  }

  predicate Matches(r: Record, identity: Identity, stamp: Stamp) {
    r.identity == identity && r.stamp == stamp
  }

  /** Possibly still held by the service: published less than half a lifetime ago, or in the future. */
  predicate Live(r: Record, now: int) {
    && r.envelope.Some?
    && r.publishedAt.Some?
    && (r.publishedAt.value > now || now - r.publishedAt.value < RenewAfterMs(r.ttl))
  }

  predicate Fits(envelope: Text) {
    |envelope| <= MAX_ANNOUNCEMENT_BYTES
  }

  predicate Oversize(r: Record) {
    r.envelope.Some? && !Fits(r.envelope.value)
  }

  predicate RecordsLiveness(s: PublishState) {
    s == Published || s == Uncertain
  }

  /** An announcement nobody else could open is not made. */
  function SealAdvertisement(sealed: Option<Sealed>): Option<Text> {
    if sealed.Some? && sealed.value.recipients > 1 then Some(sealed.value.bytes) else None
  }

  // ---------------------------------------------------------------------------------------------
  // The two database steps, on values

  predicate Current(record: Option<Record>, identity: Identity, stamp: Stamp) {
    record.Some? && Matches(record.value, identity, stamp)
  }

  /** The record a tick works from: the stored one while it is current, or a fresh seal. */
  function Working(record: Option<Record>, identity: Identity, stamp: Stamp, sealed: Option<Sealed>, ttl: nat): Record {
    if Current(record, identity, stamp) then record.value
    else Record(identity, stamp, SealAdvertisement(sealed), None, ttl)
  }

  /** The record it leaves: an envelope too large to publish is latched to none. */
  function Latched(r: Record): Record {
    if Oversize(r) then r.(envelope := None) else r
  }

  function HandedOut(r: Record, identity: Identity, now: int, ttl: nat): Option<Publication> {
    if Oversize(r) || Live(r, now) || r.envelope.None? then None
    else Some(Publication(identity, r.envelope.value, ttl))
  }

  /** A publish counts only for the record it came from, and only while the roster has not moved. */
  function Enlivened(record: Option<Record>, stamp: Stamp, p: Publication, at: int): Option<Record> {
    if Current(record, p.identity, stamp) && record.value.envelope == Some(p.envelope)
    then Some(record.value.(publishedAt := Some(at), ttl := p.ttl))
    else record
  }

  // ---------------------------------------------------------------------------------------------
  // What a tick does, said outright

  /** The record `r` that a tick leaves: the one it found, if that was for this identity and roster, and
   *  otherwise a new one that was never published; without an envelope of more than 2048 bytes, and
   *  without one that only its sender could open. */
  predicate Keeps(was: Option<Record>, identity: Identity, stamp: Stamp, sealed: Option<Sealed>, ttl: nat, r: Record) {
    if was.Some? && was.value.identity == identity && was.value.stamp == stamp
    then
      && r.identity == identity && r.stamp == stamp
      && r.publishedAt == was.value.publishedAt && r.ttl == was.value.ttl
      && r.envelope == (if was.value.envelope.Some? && |was.value.envelope.value| > 2048
                        then None else was.value.envelope)
    else
      && r.identity == identity && r.stamp == stamp && r.publishedAt == None && r.ttl == ttl
      && r.envelope == (if sealed.Some? && sealed.value.recipients >= 2 && |sealed.value.bytes| <= 2048
                        then Some(sealed.value.bytes) else None)
  }

  /** `p` is handed out if and only if the record has an envelope and was not published within half its
   *  lifetime; and then with the record's bytes, for this identity and lifetime. */
  predicate HandsOut(r: Record, identity: Identity, now: int, ttl: nat, p: Option<Publication>) {
    && (p.Some? <==>
          && r.envelope.Some?
          && !(r.publishedAt.Some? && (r.publishedAt.value > now || now - r.publishedAt.value < r.ttl / 2 * 1000)))
    && (p.Some? ==> p.value == Publication(identity, r.envelope.value, ttl))
  }

  lemma TickKeeps(record: Option<Record>, identity: Identity, stamp: Stamp, sealed: Option<Sealed>, now: int, ttl: nat)
    ensures var working := Working(record, identity, stamp, sealed, ttl);
      && Keeps(record, identity, stamp, sealed, ttl, Latched(working))
      && HandsOut(Latched(working), identity, now, ttl, HandedOut(working, identity, now, ttl))
  {
  }

  // ---------------------------------------------------------------------------------------------
  // As the source runs them on the database

  class Database {
    var identity: Option<Identity>  // none while the account has no discovery secret
    var stamp: Stamp
    var record: Option<Record>

    method PrepareAdvertisement(sealed: Option<Sealed>, now: int, ttl: nat) returns (p: Option<Publication>)
      modifies this`record
      ensures identity.None? ==> p.None? && record == old(record)
      ensures identity.Some? ==>
        var working := Working(old(record), identity.value, stamp, sealed, ttl);
        record == Some(Latched(working)) && p == HandedOut(working, identity.value, now, ttl)
      ensures identity.Some? ==> record.Some? && Keeps(old(record), identity.value, stamp, sealed, ttl, record.value)
      ensures identity.Some? ==> HandsOut(record.value, identity.value, now, ttl, p)
    {
      if identity.None? {
        return None;
      }
      var id := identity.value;
      var working: Record;
      if record.Some? && Matches(record.value, id, stamp) {
        working := record.value;
      } else {
        var envelope := SealAdvertisement(sealed);
        working := Record(id, stamp, envelope, None, ttl);
        record := Some(working);
      }
      if working.envelope.Some? && !Fits(working.envelope.value) {
        record := Some(working.(envelope := None));
        return None;
      }
      if Live(working, now) {
        return None;
      }
      if working.envelope.Some? {
        return Some(Publication(id, working.envelope.value, ttl));
      }
      return None;
    }

    method RecordAdvertisementLiveness(p: Publication, attemptedAt: int)
      modifies this`record
      ensures record == Enlivened(old(record), stamp, p, attemptedAt)
      ensures
        var was := old(record);
        if was.Some? && was.value.identity == p.identity && was.value.stamp == stamp
           && was.value.envelope == Some(p.envelope)
        then record == Some(was.value.(publishedAt := Some(attemptedAt), ttl := p.ttl))
        else record == was
    {
      if record.None? {
        return;
      }
      var r := record.value;
      if !Matches(r, p.identity, stamp) || r.envelope != Some(p.envelope) {
        return;
      }
      record := Some(r.(publishedAt := Some(attemptedAt), ttl := p.ttl));
    }
  }
}
