/** The post-save hook on the user model: a user that has just been created
    gets one seller, linked to it. */
module Signals {
  import opened Models
  import opened Store

  /** The receiver itself. `created` is the flag the save passes along: true
      exactly when the save inserted the user row, so no seller can point at
      that user yet. */
  method CreateSellerForNewUser(db: Database, instance: UserId, created: bool)
    requires db.Valid()
    requires instance in db.users
    requires created ==> SellersOfUser(db.sellers, instance) == {}
    modifies db`sellers, db`nextSellerId
    ensures db.Valid() && (old(db.Reconciled()) ==> db.Reconciled())
    ensures created ==> old(db.nextSellerId) !in old(db.sellers) &&
                        db.sellers == old(db.sellers)[old(db.nextSellerId) := Seller(instance)]
    ensures created ==> SellersOfUser(db.sellers, instance) == {old(db.nextSellerId)}
    ensures !created ==> db.sellers == old(db.sellers)
  {
    if created {
      var id := db.nextSellerId;
      assert forall s :: s in db.sellers ==> s !in SellersOfUser(db.sellers, instance);
      db.sellers := db.sellers[id := Seller(instance)];
      db.nextSellerId := db.nextSellerId + 1;
      OneSellerPerUser(db.sellers, id);
    }
  }

  /** Inserting under a fresh key adds exactly one key. */
  lemma OneNewKey(m: map<SellerId, Seller>, k: SellerId, v: Seller)
    requires k !in m
    ensures m[k := v].Keys - m.Keys == {k}
    ensures |m[k := v].Keys - m.Keys| == 1
  {
  }

  /** Users who had a seller keep it when sellers are only added, so once
      the saved user has one too, every user still has a seller. */
  lemma CoverGrows(users: set<UserId>, instance: UserId, before: map<SellerId, Seller>, after: map<SellerId, Seller>)
    requires forall u :: u in users ==> SellersOfUser(before, u) != {}
    requires forall s :: s in before ==> s in after && after[s] == before[s]
    requires instance in users || SellersOfUser(after, instance) != {}
    ensures forall u :: u in users + {instance} ==> SellersOfUser(after, u) != {}
  {
    forall u | u in users
      ensures SellersOfUser(after, u) != {}
    {
      var s :| s in SellersOfUser(before, u);
      assert s in SellersOfUser(after, u);
    }
  }

  /** Saving a user: the row is inserted when it is new, and the post-save
      hook then runs with `created` set accordingly. */
  method SaveUser(db: Database, instance: UserId) returns (created: bool)
    requires db.Valid()
    modifies db`users, db`sellers, db`nextSellerId
    ensures db.Valid() && (old(db.Reconciled()) ==> db.Reconciled())
    ensures created <==> instance !in old(db.users)
    ensures db.users == old(db.users) + {instance}
    ensures created ==> |db.sellers.Keys - old(db.sellers.Keys)| == 1 &&
                        SellersOfUser(db.sellers, instance) == {old(db.nextSellerId)}
    ensures !created ==> db.sellers == old(db.sellers)
    ensures forall s :: s in old(db.sellers) ==> s in db.sellers && db.sellers[s] == old(db.sellers)[s]
    ensures old(db.EveryUserHasSeller()) ==> db.EveryUserHasSeller()
  {
    created := instance !in db.users;
    ghost var before := db.sellers;
    ghost var covered := db.EveryUserHasSeller();
    db.users := db.users + {instance};
    CreateSellerForNewUser(db, instance, created);
    if created {
      OneNewKey(before, old(db.nextSellerId), Seller(instance));
    }
    if covered {
      CoverGrows(old(db.users), instance, before, db.sellers);
    }
  }
}
