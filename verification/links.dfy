/** The link registry behind the `/generate`, `/redirect/:token` and `/webhook`
    handlers: a mapping from user id to the one link record issued for it. */
module LinkRegistry {
  import opened Wrappers
  import opened Seqs
  import opened Strings

  /** How long a link stays valid: 24 hours, in milliseconds. */
  const LinkLifetime: int := 24 * 60 * 60 * 1000
  /** Every issued URL is this base followed by the link's token. */
  const RedirectBase: string := "https://yourapp.onrender.com/redirect/"
  /** The fixed scheduler page that valid links forward to. */
  const SchedulerUrl: string := "https://meetings.hubspot.com/joseph626"
  /** The query parameter that carries the token to the scheduler. */
  const TokenQuery: string := "?custom_token="
  /** The key used when the request names no user. */
  const DefaultUserId: string := "default"
  /** The webhook event that reports a booked meeting. */
  const MeetingsCreated: string := "meetings.created"

  const NewLinkPrefix: string := "Your new link: "
  const ExistingLinkPrefix: string := "Your existing link: "
  const WebhookAck: string := "Webhook received"

  /** One issued link. `hubspotLink` is the scheduler target. */
  datatype LinkRecord = LinkRecord(uniqueUrl: string, hubspotLink: string, expirationTime: int, used: bool)

  /** One property of the `links` object: a user id and its record. */
  datatype Entry = Entry(userId: string, link: LinkRecord)

  /** The `links` object, as its properties in enumeration order. */
  type Registry = seq<Entry>

  /** An object has each property once. */
  predicate Valid(reg: Registry) {
    forall i, j :: 0 <= i < j < |reg| ==> reg[i].userId != reg[j].userId
  }

  /** `links[key]`. */
  function Get(reg: Registry, key: string): (r: Option<LinkRecord>)
    ensures r.None? <==> forall j :: 0 <= j < |reg| ==> reg[j].userId != key
    ensures Valid(reg) ==> forall j :: 0 <= j < |reg| && reg[j].userId == key ==> r == Some(reg[j].link)
  {
    match FirstIndex(reg, (e: Entry) => e.userId == key)
    case None => None
    case Some(i) => Some(reg[i].link)
  }

  /** `links[key] = rec`: an existing property is overwritten where it stands,
      a new one is appended. */
  function Put(reg: Registry, key: string, rec: LinkRecord): (r: Registry)
    requires Valid(reg)
    ensures Valid(r)
    ensures Get(r, key) == Some(rec)
    ensures forall k :: k != key ==> Get(r, k) == Get(reg, k)
    ensures Get(reg, key).Some? ==> |r| == |reg|
    ensures Get(reg, key).None? ==> |r| == |reg| + 1 && r[|reg|] == Entry(key, rec)
    ensures forall j :: 0 <= j < |reg| ==> r[j].userId == reg[j].userId
    ensures forall j :: 0 <= j < |reg| && reg[j].userId != key ==> r[j] == reg[j]
  {
    match FirstIndex(reg, (e: Entry) => e.userId == key)
    case None =>
      var r := reg + [Entry(key, rec)];
      assert r[|reg|] == Entry(key, rec);
      assert forall k :: k != key ==> Get(r, k) == Get(reg, k) by {
        forall k | k != key ensures Get(r, k) == Get(reg, k) {
          if j :| 0 <= j < |reg| && reg[j].userId == k {
            assert r[j] == reg[j];
          }
        }
      }
      r
    case Some(i) =>
      var r := reg[i := Entry(key, rec)];
      assert r[i] == Entry(key, rec);
      assert forall k :: k != key ==> Get(r, k) == Get(reg, k) by {
        forall k | k != key ensures Get(r, k) == Get(reg, k) {
          if j :| 0 <= j < |reg| && reg[j].userId == k {
            assert r[j] == reg[j];
          }
        }
      }
      r
  }

  /** `req.query.userId || 'default'`: an absent or empty user id becomes "default". */
  function UserKey(userId: Option<string>): (k: string)
    ensures k != ""
    ensures userId.Some? && userId.value != "" ==> k == userId.value
    ensures k == DefaultUserId <==> userId.None? || userId.value in {"", DefaultUserId}
  {
    if userId.Some? && userId.value != "" then userId.value else DefaultUserId
  }

  /** A link may be served again: it is unused and its expiry has not passed. */
  predicate IsActive(rec: LinkRecord, now: int) {
    !rec.used && now <= rec.expirationTime
  }

  /** The user has a stored link that is still active. */
  predicate HasActiveLink(reg: Registry, key: string, now: int) {
    Get(reg, key).Some? && IsActive(Get(reg, key).value, now)
  }

  /** What a handler leaves behind: the registry and the response body. */
  datatype Reply = Reply(registry: Registry, body: string)

  /** `/generate`: the active link of the user if there is one, otherwise a
      fresh link built from `token`, stored under the user and valid for 24 hours. */
  function Generate(reg: Registry, userId: Option<string>, now: int, token: string): (r: Reply)
    requires Valid(reg)
    ensures Valid(r.registry)
    ensures HasActiveLink(reg, UserKey(userId), now) ==>
              r.registry == reg && r.body == ExistingLinkPrefix + Get(reg, UserKey(userId)).value.uniqueUrl
    ensures !HasActiveLink(reg, UserKey(userId), now) ==>
              && Get(r.registry, UserKey(userId)).Some?
              && Get(r.registry, UserKey(userId)).value.uniqueUrl == RedirectBase + token
              && Get(r.registry, UserKey(userId)).value.hubspotLink == SchedulerUrl
              && Get(r.registry, UserKey(userId)).value.expirationTime == now + 86400000
              && !Get(r.registry, UserKey(userId)).value.used
              && r.body == NewLinkPrefix + RedirectBase + token
    ensures !HasActiveLink(reg, UserKey(userId), now) ==>
              forall k :: k != UserKey(userId) ==> Get(r.registry, k) == Get(reg, k)
    ensures !HasActiveLink(reg, UserKey(userId), now) ==>
              && (Get(reg, UserKey(userId)).Some? ==> |r.registry| == |reg|)
              && (Get(reg, UserKey(userId)).None? ==> |r.registry| == |reg| + 1)
              && |reg| <= |r.registry|
              && (forall j :: 0 <= j < |reg| ==> r.registry[j].userId == reg[j].userId)
  {
    var key := UserKey(userId);
    if HasActiveLink(reg, key, now) then
      Reply(reg, ExistingLinkPrefix + Get(reg, key).value.uniqueUrl)
    else
      var uniqueUrl := RedirectBase + token;
      var rec := LinkRecord(uniqueUrl, SchedulerUrl, now + LinkLifetime, false);
      Reply(Put(reg, key, rec), NewLinkPrefix + uniqueUrl)
  }

  /** The entry's URL contains the token. */
  predicate Matches(e: Entry, token: string) {
    Includes(e.link.uniqueUrl, token)
  }

  /** Entry `i` is the one `find` returns: it matches and none before it does. */
  predicate FirstMatch(reg: Registry, token: string, i: nat) {
    i < |reg| && Matches(reg[i], token) && forall j :: 0 <= j < i ==> !Matches(reg[j], token)
  }

  /** `Object.values(links).find(link => link.uniqueUrl.includes(token))`, as a position. */
  function FindByToken(reg: Registry, token: string): (r: Option<nat>)
    ensures r.Some? ==> FirstMatch(reg, token, r.value)
    ensures r.None? <==> forall j :: 0 <= j < |reg| ==> !Matches(reg[j], token)
  {
    FirstIndex(reg, (e: Entry) => Matches(e, token))
  }

  /** The position `find` returns is the only one that is a first match. */
  lemma FirstMatchUnique(reg: Registry, token: string, i: nat, k: nat)
    requires FirstMatch(reg, token, i) && FirstMatch(reg, token, k)
    ensures i == k
  {
  }

  /** The result of following `/redirect/:token`. */
  datatype Resolution = NotFound | Expired | Redirect(location: string)

  /** `/redirect/:token`: NotFound when no URL contains the token, Expired when
      the first match is past its expiry, otherwise the scheduler target with
      the queried token appended. The `used` flag is not consulted. */
  function Resolve(reg: Registry, token: string, now: int): (r: Resolution)
    ensures r.NotFound? <==> forall j :: 0 <= j < |reg| ==> !Matches(reg[j], token)
    ensures forall i: nat :: FirstMatch(reg, token, i) ==>
              && (r.Expired? <==> now > reg[i].link.expirationTime)
              && (r.Redirect? ==> r.location == reg[i].link.hubspotLink + "?custom_token=" + token)
  {
    match FindByToken(reg, token)
    case None => NotFound
    case Some(i) =>
      assert forall k: nat :: FirstMatch(reg, token, k) ==> k == i by {
        forall k: nat | FirstMatch(reg, token, k) ensures k == i {
          FirstMatchUnique(reg, token, i, k);
        }
      }
      var link := reg[i].link;
      if now > link.expirationTime then Expired
      else Redirect(link.hubspotLink + TokenQuery + token)
  }

  /** Two entries differ at most in their `used` flag. */
  predicate SameButUsed(a: Entry, b: Entry) {
    && a.userId == b.userId
    && a.link.uniqueUrl == b.link.uniqueUrl
    && a.link.hubspotLink == b.link.hubspotLink
    && a.link.expirationTime == b.link.expirationTime
  }

  /** Setting `used = true` on the record `find` returns for the token; with no
      match nothing changes. */
  function MarkUsed(reg: Registry, token: string): (r: Registry)
    ensures |r| == |reg|
    ensures forall j :: 0 <= j < |reg| ==> SameButUsed(r[j], reg[j])
    ensures (forall j :: 0 <= j < |reg| ==> !Matches(reg[j], token)) ==> r == reg
    ensures forall i: nat :: FirstMatch(reg, token, i) ==>
              r[i].link.used && forall j :: 0 <= j < |reg| && j != i ==> r[j] == reg[j]
    ensures Valid(reg) ==> Valid(r)
  {
    match FindByToken(reg, token)
    case None => reg
    case Some(i) =>
      assert forall k: nat :: FirstMatch(reg, token, k) ==> k == i by {
        forall k: nat | FirstMatch(reg, token, k) ensures k == i {
          FirstMatchUnique(reg, token, i, k);
        }
      }
      reg[i := reg[i].(link := reg[i].link.(used := true))]
  }

  /** `/webhook`: a `meetings.created` event marks the link holding its token
      used; every other event is ignored. The reply is always the same. */
  function Webhook(reg: Registry, event: string, customToken: string): (r: Reply)
    ensures r.body == "Webhook received"
    ensures event != "meetings.created" ==> r.registry == reg
    ensures event == "meetings.created" ==> r.registry == MarkUsed(reg, customToken)
    ensures Valid(reg) ==> Valid(r.registry)
  {
    if event == MeetingsCreated then Reply(MarkUsed(reg, customToken), WebhookAck)
    else Reply(reg, WebhookAck)
  }
}
