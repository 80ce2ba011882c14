/**
  The store-backed subscriber repository. Its state is the document
  collection; the write operations guard their input, then issue one write
  to the collection. A write that throws (the repository catches it) is
  modelled by a nondeterministic `failed` outcome that commits nothing: the
  operation returns false and the collection is as it was. A write the store
  applied before reporting an error is not modelled.
 */
module Repository {
  import opened Wrappers
  import opened NullableStrings
  import opened Subscribers
  import opened SubscriberCollection

  /** The guard of Add and Update: a subscriber is given and its email is neither null nor empty. */
  predicate HasEmailKey(subscriber: Option<Subscriber>) {
    subscriber.Some? && !IsNullOrEmpty(subscriber.value.email)
  }

  class MongoDbSubscriberRepository {
    var documents: seq<Subscriber>

    constructor (collection: seq<Subscriber>)
      ensures documents == collection
    {
      documents := collection;
    }

    /** Every stored subscriber, in the collection's order. */
    method GetAll() returns (all: seq<Subscriber>)
      ensures all == documents
    {
      all := documents;
    }

    /** The first subscriber with that email; none for a null or empty email or when none matches. */
    method GetByEmail(email: NullableString) returns (r: Option<Subscriber>)
      ensures IsNullOrEmpty(email) ==> r.None?
      ensures !IsNullOrEmpty(email) ==> (r.Some? <==> HasEmail(documents, email.value))
      ensures r.Some? ==> r.value.email == email
      ensures r.Some? ==> exists k :: 0 <= k < |documents| && documents[k] == r.value
                                      && forall j :: 0 <= j < k ==> documents[j].email != email
    {
      if IsNullOrEmpty(email) {
        return None;
      }
      match FirstWithEmail(documents, email.value)
      case None =>
        r := None;
      case Some(k) =>
        r := Some(documents[k]);
    }

    /**
      Inserts the subscriber unless it has no email or its email is taken.
      Success means exactly that record was appended.
     */
    method Add(subscriber: Option<Subscriber>) returns (ok: bool)
      modifies this
      ensures !HasEmailKey(subscriber) ==> !ok
      ensures HasEmailKey(subscriber) && HasEmail(old(documents), subscriber.value.email.value) ==> !ok
      ensures ok ==> subscriber.Some? && documents == old(documents) + [subscriber.value]
      ensures !ok ==> documents == old(documents)
      ensures UniqueEmails(old(documents)) ==> UniqueEmails(documents)
    {
      if !HasEmailKey(subscriber) {
        return false;
      }
      var existing := GetByEmail(subscriber.value.email);
      if existing.Some? {
        return false;
      }
      var failed: bool := *;
      if failed {
        return false;
      }
      documents := documents + [subscriber.value];
      if UniqueEmails(old(documents)) {
        AppendFreshKeepsUnique(old(documents), subscriber.value);
      }
      return true;
    }

    /**
      Replaces the record with the subscriber's email, or inserts the
      subscriber when there is none. Reports success only when an existing
      record was changed: an insert, or a replacement identical to the
      stored record, reports false.
     */
    method Update(subscriber: Option<Subscriber>) returns (ok: bool)
      modifies this
      ensures !HasEmailKey(subscriber) ==> !ok && documents == old(documents)
      ensures HasEmailKey(subscriber) ==>
        || documents == old(documents)
        || documents == ReplaceOneUpsert(old(documents), subscriber.value.email.value, subscriber.value).documents
      ensures ok <==> HasEmailKey(subscriber) && HasEmail(old(documents), subscriber.value.email.value)
                      && documents != old(documents)
      ensures !ok && documents != old(documents) ==>
        HasEmailKey(subscriber) && !HasEmail(old(documents), subscriber.value.email.value)
        && documents == old(documents) + [subscriber.value]
      ensures UniqueEmails(old(documents)) ==> UniqueEmails(documents)
    {
      if !HasEmailKey(subscriber) {
        return false;
      }
      var failed: bool := *;
      if failed {
        return false;
      }
      var s := subscriber.value;
      var result := ReplaceOneUpsert(documents, s.email.value, s);
      documents := result.documents;
      if UniqueEmails(old(documents)) {
        UpsertKeepsUnique(old(documents), s.email.value, s);
      }
      ok := result.modifiedCount > 0;
    }

    /**
      Removes one record with that email. Success means a record was
      removed; a null or empty email, no match, or a rejected write report
      false and remove nothing.
     */
    method Delete(email: NullableString) returns (ok: bool)
      modifies this
      ensures IsNullOrEmpty(email) ==> !ok
      ensures ok ==> !IsNullOrEmpty(email) && HasEmail(old(documents), email.value)
      ensures documents == if ok then DeleteOne(old(documents), email.value).remaining else old(documents)
      ensures UniqueEmails(old(documents)) ==> UniqueEmails(documents)
      ensures UniqueEmails(old(documents)) && ok ==> !HasEmail(documents, email.value)
    {
      if IsNullOrEmpty(email) {
        return false;
      }
      var failed: bool := *;
      if failed {
        return false;
      }
      var result := DeleteOne(documents, email.value);
      documents := result.remaining;
      if UniqueEmails(old(documents)) {
        DeleteOneKeepsUnique(old(documents), email.value);
      }
      ok := result.deletedCount > 0;
    }

    /** Whether a record with the subscriber's email exists; false for a null or empty email. */
    method Exists(subscriber: Subscriber) returns (ok: bool)
      ensures ok <==> !IsNullOrEmpty(subscriber.email) && HasEmail(documents, subscriber.email.value)
    {
      if IsNullOrEmpty(subscriber.email) {
        return false;
      }
      ok := CountDocuments(documents, subscriber.email.value) > 0;
    }
  }

  /**
    Two deletes of one email in a row: when the first removes a record, the
    second removes none.
   */
  method DeleteTwiceInARow(repository: MongoDbSubscriberRepository, email: NullableString) returns (first: bool, second: bool)
    requires UniqueEmails(repository.documents)
    modifies repository
    ensures first ==> !second
    ensures IsNullOrEmpty(email) || !HasEmail(old(repository.documents), email.value) ==> !first && !second
    ensures UniqueEmails(repository.documents)
  {
    first := repository.Delete(email);
    second := repository.Delete(email);
  }
}
