/**
  The document collection behind the store-backed repository, reduced to
  what the repository asks of it: filtering on Email, counting, deleting one
  document and replacing one document with upsert. The collection is a
  sequence in its natural order; "the first match" is the first in that order.
 */
module SubscriberCollection {
  import opened Wrappers
  import opened Subscribers

  /** Some document passes the filter s => s.Email == email. */
  predicate HasEmail(docs: seq<Subscriber>, email: string) {
    exists k :: 0 <= k < |docs| && docs[k].email == Some(email)
  }

  /** At most one document per (non-null) email. */
  predicate UniqueEmails(docs: seq<Subscriber>) {
    forall i, j :: 0 <= i < j < |docs| && docs[i].email.Some? ==> docs[i].email != docs[j].email
  }

  /** Where Find(s => s.Email == email).FirstOrDefault() looks: the first matching document. */
  function FirstWithEmail(docs: seq<Subscriber>, email: string): (r: Option<nat>)
    ensures r.Some? ==> r.value < |docs| && docs[r.value].email == Some(email)
    ensures r.Some? ==> forall k :: 0 <= k < r.value ==> docs[k].email != Some(email)
    ensures r.None? <==> !HasEmail(docs, email)
  {
    if docs == [] then None
    else if docs[0].email == Some(email) then Some(0)
    else
      match FirstWithEmail(docs[1..], email)
      case None =>
        assert forall k :: 1 <= k < |docs| ==> docs[k] == docs[1..][k - 1];
        None
      case Some(k) => Some(k + 1)
  }

  /** CountDocuments(s => s.Email == email). */
  function CountDocuments(docs: seq<Subscriber>, email: string): (n: nat)
    ensures n <= |docs|
    ensures n > 0 <==> HasEmail(docs, email)
  {
    if docs == [] then 0
    else
      assert forall k :: 1 <= k < |docs| ==> docs[k] == docs[1..][k - 1];
      (if docs[0].email == Some(email) then 1 else 0) + CountDocuments(docs[1..], email)
  }

  lemma {:induction false} CountDocumentsAppend(a: seq<Subscriber>, b: seq<Subscriber>, email: string)
    ensures CountDocuments(a + b, email) == CountDocuments(a, email) + CountDocuments(b, email)
  {
    if a != [] {
      assert (a + b)[1..] == a[1..] + b;
      CountDocumentsAppend(a[1..], b, email);
    } else {
      assert a + b == b;
    }
  }

  /** Under the uniqueness invariant an email is held by at most one document. */
  lemma {:induction false} UniqueMeansAtMostOne(docs: seq<Subscriber>, email: string)
    requires UniqueEmails(docs)
    ensures CountDocuments(docs, email) <= 1
  {
    if docs != [] {
      var tail := docs[1..];
      assert UniqueEmails(tail) by {
        forall i, j | 0 <= i < j < |tail| && tail[i].email.Some?
          ensures tail[i].email != tail[j].email
        {
          assert tail[i] == docs[i + 1] && tail[j] == docs[j + 1];
        }
      }
      UniqueMeansAtMostOne(tail, email);
      if docs[0].email == Some(email) {
        forall k | 0 <= k < |tail|
          ensures tail[k].email != Some(email)
        {
          assert tail[k] == docs[k + 1];
        }
      }
    }
  }

  /** A document whose email is new to a collection keeps the collection unique (InsertOne after the duplicate check). */
  lemma AppendFreshKeepsUnique(docs: seq<Subscriber>, d: Subscriber)
    requires UniqueEmails(docs)
    requires d.email.Some? && !HasEmail(docs, d.email.value)
    ensures UniqueEmails(docs + [d])
  {
  }

  /** The result of DeleteOne: the remaining documents and DeletedCount. */
  datatype DeleteResult = DeleteResult(remaining: seq<Subscriber>, deletedCount: nat)

  /** DeleteOne(s => s.Email == email): removes the first matching document, if any. */
  function DeleteOne(docs: seq<Subscriber>, email: string): (r: DeleteResult)
    ensures r.deletedCount == if HasEmail(docs, email) then 1 else 0
    ensures |r.remaining| == |docs| - r.deletedCount
    ensures r.deletedCount == 0 ==> r.remaining == docs
    ensures multiset(r.remaining) <= multiset(docs)
  {
    match FirstWithEmail(docs, email)
    case None => DeleteResult(docs, 0)
    case Some(k) =>
      assert docs == docs[..k] + [docs[k]] + docs[k + 1..];
      DeleteResult(docs[..k] + docs[k + 1..], 1)
  }

  /** DeleteOne takes one record of that email away and leaves every other email's records alone. */
  lemma DeleteOneCounts(docs: seq<Subscriber>, email: string, other: string)
    ensures CountDocuments(DeleteOne(docs, email).remaining, email)
         == CountDocuments(docs, email) - DeleteOne(docs, email).deletedCount
    ensures other != email ==>
      CountDocuments(DeleteOne(docs, email).remaining, other) == CountDocuments(docs, other)
  {
    var f := FirstWithEmail(docs, email);
    if f.Some? {
      var k := f.value;
      assert docs == docs[..k] + ([docs[k]] + docs[k + 1..]);
      CountDocumentsAppend(docs[..k], [docs[k]] + docs[k + 1..], email);
      CountDocumentsAppend([docs[k]], docs[k + 1..], email);
      CountDocumentsAppend(docs[..k], docs[k + 1..], email);
      CountDocumentsAppend(docs[..k], [docs[k]] + docs[k + 1..], other);
      CountDocumentsAppend([docs[k]], docs[k + 1..], other);
      CountDocumentsAppend(docs[..k], docs[k + 1..], other);
    }
  }

  /** Under the uniqueness invariant, DeleteOne leaves no record of that email and keeps the invariant. */
  lemma DeleteOneKeepsUnique(docs: seq<Subscriber>, email: string)
    requires UniqueEmails(docs)
    ensures UniqueEmails(DeleteOne(docs, email).remaining)
    ensures !HasEmail(DeleteOne(docs, email).remaining, email)
  {
  }

  /** Deleting the same email twice: the first call removes a record, the second finds none. */
  lemma DeleteTwice(docs: seq<Subscriber>, email: string)
    requires UniqueEmails(docs) && HasEmail(docs, email)
    ensures DeleteOne(docs, email).deletedCount == 1
    ensures DeleteOne(DeleteOne(docs, email).remaining, email).deletedCount == 0
  {
  }

  /** The result of ReplaceOne: the new documents, MatchedCount and ModifiedCount. */
  datatype ReplaceResult = ReplaceResult(documents: seq<Subscriber>, matchedCount: nat, modifiedCount: nat)

  /**
    ReplaceOne(s => s.Email == email, replacement, IsUpsert = true): replaces the
    first matching document, or inserts the replacement when none matches. The
    store counts a replacement as a modification only when it changes the
    document, and an inserted document is never counted as modified.
   */
  function ReplaceOneUpsert(docs: seq<Subscriber>, email: string, replacement: Subscriber): (r: ReplaceResult)
    ensures r.matchedCount == if HasEmail(docs, email) then 1 else 0
    ensures r.modifiedCount <= r.matchedCount
    ensures r.matchedCount == 0 ==> r.documents == docs + [replacement]
    ensures r.matchedCount == 1 ==> |r.documents| == |docs|
    ensures r.modifiedCount == 0 ==> r.documents == docs || r.documents == docs + [replacement]
    ensures r.modifiedCount > 0 <==> r.matchedCount == 1 && r.documents != docs
    ensures r.matchedCount == 1 ==>
      exists k :: && 0 <= k < |docs| && docs[k].email == Some(email)
                  && (forall j :: 0 <= j < k ==> docs[j].email != Some(email))
                  && r.documents == docs[k := replacement]
                  && (r.modifiedCount > 0 <==> docs[k] != replacement)
  {
    match FirstWithEmail(docs, email)
    case None => ReplaceResult(docs + [replacement], 0, 0)
    case Some(k) =>
      assert docs[k] != replacement ==> docs[k := replacement][k] != docs[k];
      ReplaceResult(docs[k := replacement], 1, if docs[k] == replacement then 0 else 1)
  }

  /**
    The email-filtered upsert keeps the uniqueness invariant and leaves exactly
    one record with the replacement's email.
   */
  lemma UpsertKeepsUnique(docs: seq<Subscriber>, email: string, replacement: Subscriber)
    requires UniqueEmails(docs) && replacement.email == Some(email)
    ensures UniqueEmails(ReplaceOneUpsert(docs, email, replacement).documents)
    ensures CountDocuments(ReplaceOneUpsert(docs, email, replacement).documents, email) == 1
  {
    var r := ReplaceOneUpsert(docs, email, replacement).documents;
    var f := FirstWithEmail(docs, email);
    if f.None? {
      AppendFreshKeepsUnique(docs, replacement);
      CountDocumentsAppend(docs, [replacement], email);
    } else {
      var k := f.value;
      assert r == docs[k := replacement];
      forall i | 0 <= i < |r|
        ensures r[i].email == docs[i].email
      {
      }
      assert UniqueEmails(r);
      UniqueMeansAtMostOne(r, email);
      assert r[k].email == Some(email);
    }
  }
}
