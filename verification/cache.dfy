/**
 * The short-lived DNS cache of `queryAvatarService`: a map from domain to the time a
 * response was stored and the decoded response. `Date.now()` is passed in as `now`
 * (before the lookup) and `later` (after the response arrived); the DNS-over-HTTPS
 * exchange is the request URL the method hands out and the response bytes it is given.
 */
module Cache {

  import opened Wrappers
  import opened Bytes
  import opened Names
  import opened Message
  import opened Query
  import opened Labels
  import Base64

  /** A cache entry: when it was stored (milliseconds) and the decoded response. */
  datatype Entry = Entry(timestamp: int, response: Message)

  /** Why `queryAvatarService` rejects: `btoa` threw, or the response could not be decoded. */
  datatype QueryError = InvalidCharacter | Undecodable(error: DecodeError)

  /** Only responses with an answer record are ever stored. */
  predicate EntriesValid(entries: map<string, Entry>)
  {
    forall d | d in entries :: entries[d].response.record.Some?
  }

  /** An entry is served while its timestamp plus the record's ttl in milliseconds is still ahead. */
  predicate Fresh(e: Entry, now: int)
    requires e.response.record.Some?
  {
    e.timestamp + e.response.record.value.ttl * 1000 > now
  }

  /** Lines 39-47: the cached response for `domain` at time `now`, if any. */
  function Lookup(entries: map<string, Entry>, domain: string, now: int): Option<Message>
    requires EntriesValid(entries)
  {
    if domain in entries && Fresh(entries[domain], now) then Some(entries[domain].response) else None
  }

  /** Lines 80-82: the entries after a response arrived at `time`. */
  function Store(entries: map<string, Entry>, domain: string, time: int, m: Message): map<string, Entry>
  {
    if m.record.Some? then entries[domain := Entry(time, m)] else entries
  }

  /**
   * No character lies beyond U+FFFF. `charCodeAt` gives UTF-16 code units, so such a
   * character reaches `fromCharCode` as two surrogates, both above 255, and `btoa` throws.
   */
  predicate InBasicPlane(domain: string)
  {
    forall k | 0 <= k < |domain| :: domain[k] as int < 0x1_0000
  }

  /** `btoa` accepts the query of `domain` (line 61). */
  predicate Encodable(domain: string)
  {
    InBasicPlane(domain) && Latin1(QueryBytes(domain)).Some?
  }

  /** A domain whose labels have 1 to 255 characters below 256 is sent as its query bytes. */
  lemma FittingDomainEncodable(domain: string)
    requires DomainFits(domain)
    ensures Encodable(domain)
    ensures Latin1(QueryBytes(domain)) == Some(QueryBytes(domain))
  {
    QueryInRange(domain);
    Latin1OfBytes(QueryBytes(domain));
    QueryLabelsFit(domain);
    var labels: seq<seq<byte>> := QueryLabels(domain);
    QueryName(domain);
    JoinBytes(labels, Dot);
    var joined: seq<byte> := Join<byte>(labels, Dot);
    var prefix := AvatarsSec + [Dot] + Tcp + [Dot];
    assert joined == prefix + Codes(domain);
    forall k | 0 <= k < |domain| ensures domain[k] as int < 0x1_0000 {
      assert joined[|prefix| + k] == Codes(domain)[k] == domain[k] as int;
    }
  }

  /** The request of line 68 for an encoded query. */
  function RequestUrl(dohServer: string, encoded: string): string
  {
    "https://" + dohServer + "/dns-query?dns=" + encoded
  }

  /** The module-level `dnsCache` map. */
  class DnsCache {

    var entries: map<string, Entry>

    ghost predicate Valid()
      reads this
    {
      EntriesValid(entries)
    }

    constructor ()
      ensures entries == map[] && Valid()
    {
      entries := map[];
    }

    /** Lines 39-47. */
    method Get(domain: string, now: int) returns (r: Option<Message>)
      requires Valid()
      ensures r == Lookup(entries, domain, now)
    {
      if domain in entries {
        var cached := entries[domain];
        if cached.timestamp + cached.response.record.value.ttl * 1000 > now {
          return Some(cached.response);
        }
      }
      return None;
    }

    /** Lines 80-82. */
    method Put(domain: string, time: int, m: Message)
      requires Valid()
      modifies this
      ensures entries == Store(old(entries), domain, time, m)
      ensures Valid()
    {
      if m.record.Some? {
        entries := entries[domain := Entry(time, m)];
      }
    }

    /**
     * `queryAvatarService`: a fresh cached response is returned with no request. Otherwise
     * the query is encoded (failing if `btoa` throws), the request URL carrying `btoa`'s
     * output without its padding is handed out, the response is decoded, and stored at
     * `later` when it has an answer record.
     */
    method QueryAvatarService(domain: string, dohServer: string, now: int, later: int, response: seq<byte>)
      returns (request: Option<string>, r: Result<Message, QueryError>)
      requires Valid()
      modifies this
      ensures Valid()
      ensures Lookup(old(entries), domain, now).Some? ==>
        request == None && r == Ok(Lookup(old(entries), domain, now).value) && entries == old(entries)
      ensures Lookup(old(entries), domain, now).None? && !Encodable(domain) ==>
        request == None && r == Err(InvalidCharacter) && entries == old(entries)
      ensures Lookup(old(entries), domain, now).None? && Encodable(domain) ==>
        request == Some(RequestUrl(dohServer, Base64.Unpadded(Latin1(QueryBytes(domain)).value))) &&
        match MessageOf(response)
        case Ok(m) => r == Ok(m) && entries == Store(old(entries), domain, later, m)
        case Err(e) => r == Err(Undecodable(e)) && entries == old(entries)
    {
      var cached := Get(domain, now);
      if cached.Some? {
        return None, Ok(cached.value);
      }
      var messageBytes := BuildQueryBytes(domain);
      var messageBase64 := EncodeQuery(messageBytes);
      // a character beyond U+FFFF reaches `btoa` as two surrogates, both above 255
      if messageBase64.None? || exists k | 0 <= k < |domain| :: domain[k] as int >= 0x1_0000 {
        return None, Err(InvalidCharacter);
      }
      request := Some(RequestUrl(dohServer, messageBase64.value));
      var decoded := Decode(response);
      if decoded.Err? {
        return request, Err(Undecodable(decoded.error));
      }
      Put(domain, later, decoded.value);
      r := Ok(decoded.value);
    }
  }

  /** A response with a record, looked up before its ttl has run out, is the stored response. */
  lemma StoreThenLookup(entries: map<string, Entry>, domain: string, time: int, m: Message, now: int)
    requires EntriesValid(entries) && m.record.Some?
    requires now < time + m.record.value.ttl * 1000
    ensures EntriesValid(Store(entries, domain, time, m))
    ensures Lookup(Store(entries, domain, time, m), domain, now) == Some(m)
  {
  }

  /** Once the ttl has run out the stored response is no longer served. */
  lemma StoreThenExpire(entries: map<string, Entry>, domain: string, time: int, m: Message, now: int)
    requires EntriesValid(entries) && m.record.Some?
    requires now >= time + m.record.value.ttl * 1000
    ensures EntriesValid(Store(entries, domain, time, m))
    ensures Lookup(Store(entries, domain, time, m), domain, now) == None
  {
  }

  /** A response without an answer record leaves the cache as it was. */
  lemma StoreWithoutRecord(entries: map<string, Entry>, domain: string, time: int, m: Message)
    requires m.record.None?
    ensures Store(entries, domain, time, m) == entries
  {
  }

  /** Storing one domain changes no lookup of another. */
  lemma StoreOtherDomain(entries: map<string, Entry>, domain: string, time: int, m: Message, other: string, now: int)
    requires EntriesValid(entries) && other != domain
    ensures EntriesValid(Store(entries, domain, time, m))
    ensures Lookup(Store(entries, domain, time, m), other, now) == Lookup(entries, other, now)
  {
  }

  /** A lookup that misses keeps missing as time goes on. */
  lemma MissStaysMissed(entries: map<string, Entry>, domain: string, now: int, later: int)
    requires EntriesValid(entries) && now <= later
    requires Lookup(entries, domain, now) == None
    ensures Lookup(entries, domain, later) == None
  {
  }
}
