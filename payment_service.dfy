/** internal/services/paymentService.go: the payment provider's webhook, which
    marks a user premium. */
module PaymentService {
  import opened Wrappers
  import opened Common
  import opened Database
  import opened Config
  import opened Models

  /** The only event that upgrades anybody. */
  const UpgradeEvent: string := "user.upgraded"

  /** The request presents exactly the configured payment key. */
  predicate Authorized(reqHeader: Header, cfg: ApiConfig, p: Platform)
  {
    p.getApiKey(reqHeader) == Some(cfg.paymentKey)
  }

  /** UpgradeToPremium: 401 unless the request presents the configured key,
      whatever its event; 204 for any event other than "user.upgraded",
      with nobody upgraded; 404 for a user id that is not a UUID, before the
      store is consulted; 500 when the store fails; otherwise 204 with that
      user (if any) marked premium and every other user unchanged. */
  method UpgradeToPremium(db: Queries, paymentData: PaymentProviderWebhook, reqHeader: Header,
                          cfg: ApiConfig, p: Platform)
    returns (status: int)
    requires db.Valid()
    modifies db
    ensures db.Valid()
    ensures !Authorized(reqHeader, cfg, p) ==> status == StatusUnauthorized
    ensures Authorized(reqHeader, cfg, p) && paymentData.event != UpgradeEvent ==> status == StatusNoContent
    ensures Authorized(reqHeader, cfg, p) && paymentData.event == UpgradeEvent &&
            p.uuids.parse(paymentData.data.userId).None? ==>
              status == StatusNotFound
    ensures Authorized(reqHeader, cfg, p) && paymentData.event == UpgradeEvent &&
            p.uuids.parse(paymentData.data.userId).Some? ==>
              status == if old(db.online) then StatusNoContent else StatusInternalServerError
    ensures db.users ==
              if && Authorized(reqHeader, cfg, p)
                 && paymentData.event == UpgradeEvent
                 && p.uuids.parse(paymentData.data.userId).Some?
                 && old(db.online)
              then MarkPremium(old(db.users), p.uuids.parse(paymentData.data.userId).value)
              else old(db.users)
    ensures db.online == old(db.online) && db.messages == old(db.messages) &&
            db.refreshTokens == old(db.refreshTokens)
  {
    var token := p.getApiKey(reqHeader);
    if token.None? {
      return StatusUnauthorized;
    }
    if token.value != cfg.paymentKey {
      return StatusUnauthorized;
    }
    if paymentData.event != UpgradeEvent {
      return StatusNoContent;
    }
    var userUuid := p.uuids.parse(paymentData.data.userId);
    if userUuid.None? {
      return StatusNotFound;
    }
    var ok := db.UpgradeToPremium(userUuid.value);
    if !ok {
      return StatusInternalServerError;
    }
    return StatusNoContent;
  }

  /** A webhook delivered twice upgrades no more than one delivery does. */
  lemma MarkPremiumIdempotent(us: seq<User>, id: Uuid)
    ensures MarkPremium(MarkPremium(us, id), id) == MarkPremium(us, id)
  {
  }
}
