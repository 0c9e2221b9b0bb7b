/** Properties that relate several registry operations: the link lifecycle
    (active, then expired or used), what the redirect ignores, and what the
    substring lookup lets through. */
module LinkProperties {
  import opened Wrappers
  import opened Strings
  import opened LinkRegistry

  /** A second generate that comes before the stored link expires returns the
      link the first one returned and changes nothing. */
  lemma GenerateTwiceSameLink(reg: Registry, userId: Option<string>, now1: int, now2: int, t1: string, t2: string)
    requires Valid(reg)
    requires now2 <= Get(Generate(reg, userId, now1, t1).registry, UserKey(userId)).value.expirationTime
    ensures var s1 := Generate(reg, userId, now1, t1);
            var s2 := Generate(s1.registry, userId, now2, t2);
            var url := Get(s1.registry, UserKey(userId)).value.uniqueUrl;
            && (s1.body == NewLinkPrefix + url || s1.body == ExistingLinkPrefix + url)
            && s2.registry == s1.registry
            && s2.body == ExistingLinkPrefix + url
  {
  }

  /** Generate always leaves a link stored for the user. */
  lemma GenerateStoresLink(reg: Registry, userId: Option<string>, now: int, token: string)
    requires Valid(reg)
    ensures Get(Generate(reg, userId, now, token).registry, UserKey(userId)).Some?
  {
  }

  /** Once the user's link is used or past its expiry, generate replaces it with
      a new one; the new URL differs from the old one unless the old URL
      already contained the new token. */
  lemma GenerateReplacesStaleLink(reg: Registry, userId: Option<string>, now: int, token: string)
    requires Valid(reg)
    requires Get(reg, UserKey(userId)).Some?
    requires Get(reg, UserKey(userId)).value.used || now > Get(reg, UserKey(userId)).value.expirationTime
    ensures var prior := Get(reg, UserKey(userId)).value;
            var s := Generate(reg, userId, now, token);
            && s.body == NewLinkPrefix + RedirectBase + token
            && |s.registry| == |reg|
            && (!Includes(prior.uniqueUrl, token) ==> Get(s.registry, UserKey(userId)).value.uniqueUrl != prior.uniqueUrl)
  {
    var prior := Get(reg, UserKey(userId)).value;
    IncludesSuffix(RedirectBase, token);
  }

  /** Resolve never looks at `used`: two registries whose entries differ at
      most in their `used` flags resolve every token alike. */
  lemma {:induction false} ResolveIgnoresUsedFlags(a: Registry, b: Registry, token: string, now: int)
    requires |a| == |b|
    requires forall j :: 0 <= j < |a| ==> SameButUsed(a[j], b[j])
    ensures Resolve(a, token, now) == Resolve(b, token, now)
  {
    assert forall j :: 0 <= j < |a| ==> (Matches(a[j], token) <==> Matches(b[j], token)) by {
      forall j | 0 <= j < |a| ensures Matches(a[j], token) <==> Matches(b[j], token) {
        assert SameButUsed(a[j], b[j]);
      }
    }
    match FindByToken(b, token)
    case None =>
    case Some(i) =>
      assert SameButUsed(a[i], b[i]);
      assert FirstMatch(a, token, i);
  }

  /** Marking a link used does not change what any token resolves to. */
  lemma {:induction false} ResolveIgnoresUsed(reg: Registry, marked: string, token: string, now: int)
    ensures Resolve(MarkUsed(reg, marked), token, now) == Resolve(reg, token, now)
  {
    ResolveIgnoresUsedFlags(MarkUsed(reg, marked), reg, token, now);
  }

  /** The registry after a `meetings.created` webhook for a token that reaches
      the user's link. */
  lemma WebhookMarksUserLink(reg: Registry, u: string, token: string)
    requires Valid(reg)
    requires FindByToken(reg, token).Some? && reg[FindByToken(reg, token).value].userId == u
    ensures var w := Webhook(reg, MeetingsCreated, token).registry;
            && Valid(w)
            && Get(w, u).Some?
            && Get(w, u).value.used
            && Get(w, u).value.uniqueUrl == Get(reg, u).value.uniqueUrl
  {
    var i := FindByToken(reg, token).value;
    var w := Webhook(reg, MeetingsCreated, token).registry;
    assert w[i].userId == u;
  }

  /** After a `meetings.created` webhook for a token that reaches the user's
      link, the next generate for that user issues a new link, however early. */
  lemma WebhookThenGenerateIssuesNew(reg: Registry, userId: Option<string>, token: string, now: int, newToken: string)
    requires Valid(reg)
    requires FindByToken(reg, token).Some? && reg[FindByToken(reg, token).value].userId == UserKey(userId)
    ensures var w := Webhook(reg, MeetingsCreated, token);
            var s := Generate(w.registry, userId, now, newToken);
            && w.body == WebhookAck
            && s.body == NewLinkPrefix + RedirectBase + newToken
            && Get(s.registry, UserKey(userId)).value.uniqueUrl == RedirectBase + newToken
  {
    WebhookMarksUserLink(reg, UserKey(userId), token);
  }

  /** Delivering the same webhook twice has the effect of delivering it once. */
  lemma {:induction false} WebhookIdempotent(reg: Registry, event: string, token: string)
    ensures var w1 := Webhook(reg, event, token);
            Webhook(w1.registry, event, token) == w1
  {
    if event == MeetingsCreated {
      var m1 := MarkUsed(reg, token);
      var m2 := MarkUsed(m1, token);
      match FindByToken(reg, token)
      case None =>
      case Some(i) =>
        assert forall j :: 0 <= j < |reg| ==> (Matches(m1[j], token) <==> Matches(reg[j], token)) by {
          forall j | 0 <= j < |reg| ensures Matches(m1[j], token) <==> Matches(reg[j], token) {
            assert SameButUsed(m1[j], reg[j]);
          }
        }
        assert FirstMatch(m1, token, i);
        assert SameButUsed(m2[i], m1[i]) && SameButUsed(m1[i], reg[i]);
        assert m2[i] == m1[i];
        assert forall j :: 0 <= j < |m1| ==> m2[j] == m1[j];
        assert m2 == m1;
    }
  }

  /** Every stored record was issued by generate: it targets the scheduler and
      its URL starts with the redirect base. */
  predicate Issued(e: Entry) {
    e.link.hubspotLink == SchedulerUrl && RedirectBase <= e.link.uniqueUrl
  }

  predicate AllIssued(reg: Registry) {
    forall j :: 0 <= j < |reg| ==> Issued(reg[j])
  }

  /** Generate keeps every stored record an issued one. */
  lemma GeneratePreservesIssued(reg: Registry, userId: Option<string>, now: int, token: string)
    requires Valid(reg) && AllIssued(reg)
    ensures AllIssued(Generate(reg, userId, now, token).registry)
  {
    var s := Generate(reg, userId, now, token);
    var key := UserKey(userId);
    if !HasActiveLink(reg, key, now) {
      forall j | 0 <= j < |s.registry| ensures Issued(s.registry[j]) {
        if s.registry[j].userId == key {
          assert Get(s.registry, key) == Some(s.registry[j].link);
          assert RedirectBase <= RedirectBase + token;
        } else {
          assert j < |reg|;
          assert Get(s.registry, s.registry[j].userId) == Some(s.registry[j].link);
          assert Get(reg, reg[j].userId) == Some(reg[j].link);
        }
      }
    }
  }

  /** The webhook keeps every stored record an issued one. */
  lemma WebhookPreservesIssued(reg: Registry, event: string, token: string)
    requires AllIssued(reg)
    ensures AllIssued(Webhook(reg, event, token).registry)
  {
    var w := Webhook(reg, event, token).registry;
    forall j | 0 <= j < |w| ensures Issued(w[j]) {
      assert SameButUsed(w[j], reg[j]) && Issued(reg[j]);
    }
  }

  /** In a registry of issued records a redirect always goes to the scheduler
      with the queried token. */
  lemma RedirectGoesToScheduler(reg: Registry, token: string, now: int)
    requires AllIssued(reg)
    requires Resolve(reg, token, now).Redirect?
    ensures Resolve(reg, token, now).location == SchedulerUrl + TokenQuery + token
  {
    var i := FindByToken(reg, token).value;
    assert Issued(reg[i]);
  }

  /** A link generate just issued is found by its token until it expires
      (possibly through an earlier record whose URL also contains the token). */
  lemma IssuedTokenResolves(reg: Registry, userId: Option<string>, now: int, token: string, later: int)
    requires Valid(reg)
    requires !HasActiveLink(reg, UserKey(userId), now)
    ensures Resolve(Generate(reg, userId, now, token).registry, token, later) != NotFound
  {
    var s := Generate(reg, userId, now, token).registry;
    var key := UserKey(userId);
    var j :| 0 <= j < |s| && s[j].userId == key;
    assert Get(s, key) == Some(s[j].link);
    IncludesSuffix(RedirectBase, token);
    assert Matches(s[j], token);
  }

  /** The lookup is by substring: any fragment of the redirect base, such as
      "redirect", is found in every issued URL, so such a token resolves
      through the first record stored. (The empty string is such a fragment
      too; it can only arrive as a webhook's `custom_token`.) */
  lemma BaseFragmentResolvesFirst(reg: Registry, token: string, now: int)
    requires AllIssued(reg) && |reg| > 0
    requires Includes(RedirectBase, token)
    ensures FirstMatch(reg, token, 0)
    ensures Resolve(reg, token, now) ==
              if now > reg[0].link.expirationTime then Expired else Redirect(SchedulerUrl + TokenQuery + token)
  {
    assert Issued(reg[0]);
    IncludesFromPrefix(RedirectBase, reg[0].link.uniqueUrl, token);
  }

  /** The boundary of expiry: a link resolves at its expiration instant and is
      expired one millisecond later, while staying stored. */
  lemma ExpiryBoundary(reg: Registry, token: string, i: nat)
    requires AllIssued(reg) && FirstMatch(reg, token, i)
    ensures Resolve(reg, token, reg[i].link.expirationTime) == Redirect(SchedulerUrl + TokenQuery + token)
    ensures Resolve(reg, token, reg[i].link.expirationTime + 1) == Expired
  {
    assert Issued(reg[i]);
  }

  /** The booking scenario: a first generate issues a link, a second returns
      it, the booking webhook marks it used, the redirect still works, and the
      next generate issues a new link. */
  lemma BookingLifecycle(userId: Option<string>, t1: string, t2: string, t3: string, now1: int, now2: int, now3: int)
    requires now2 <= now1 + LinkLifetime
    ensures var s1 := Generate([], userId, now1, t1);
            var s2 := Generate(s1.registry, userId, now2, t2);
            var w := Webhook(s2.registry, MeetingsCreated, t1);
            var s3 := Generate(w.registry, userId, now3, t3);
            && s1.body == NewLinkPrefix + RedirectBase + t1
            && s2.body == ExistingLinkPrefix + RedirectBase + t1
            && Get(w.registry, UserKey(userId)).value.used
            && Resolve(w.registry, t1, now2) == Redirect(SchedulerUrl + TokenQuery + t1)
            && s3.body == NewLinkPrefix + RedirectBase + t3
  {
    var key := UserKey(userId);
    var s1 := Generate([], userId, now1, t1);
    assert |s1.registry| == 1 && s1.registry[0].userId == key;
    var s2 := Generate(s1.registry, userId, now2, t2);
    IncludesSuffix(RedirectBase, t1);
    assert FindByToken(s2.registry, t1) == Some(0);
    WebhookMarksUserLink(s2.registry, key, t1);
    WebhookThenGenerateIssuesNew(s2.registry, userId, t1, now3, t3);
    ResolveIgnoresUsed(s2.registry, t1, t1, now2);
    assert FirstMatch(s2.registry, t1, 0);
  }

  /** An absent user id, an empty one and "default" all name the same link. */
  lemma DefaultUserAliases(reg: Registry, now: int, token: string)
    requires Valid(reg)
    ensures Generate(reg, None, now, token) == Generate(reg, Some(""), now, token)
    ensures Generate(reg, None, now, token) == Generate(reg, Some(DefaultUserId), now, token)
  {
  }
}
