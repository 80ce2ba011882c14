/**
  The newsletter service: the business rules over the repository. Each
  operation is a chain of guards that ends in a tagged result with a fixed
  message; only the last step changes the repository.
 */
module Newsletter {
  import opened Wrappers
  import opened NullableStrings
  import opened Subscribers
  import opened SubscriberCollection
  import opened Repository

  /** The outcome of a service call: success or failure, with a message. */
  datatype OperationResult = Success(message: string) | Failure(message: string) {
    predicate IsSuccess() {
      Success?
    }
  }

  const InvalidSubscriberMessage := "Invalid subscriber information"
  const AlreadySubscribedMessage := "Email is already subscribed"
  const AddFailedMessage := "Failed to add subscriber"
  const InvalidEmailMessage := "Invalid email"
  const NotFoundMessage := "Email not found in the list"
  const RemoveFailedMessage := "Failed to remove subscriber"
  const UnsubscribedMessage := "Successfully unsubscribed from the newsletter"

  /** The welcome text; a null name prints as nothing. */
  function WelcomeMessage(name: NullableString): string {
    "Welcome to the newsletter " + Interpolated(name) + "!"
  }

  /** The guard of SignUp: a subscriber is given and its email is not null, empty or white space only. */
  predicate SignUpInputIsValid(subscriber: Option<Subscriber>) {
    subscriber.Some? && !IsNullOrWhiteSpace(subscriber.value.email)
  }

  /** The welcome message names the subscriber. */
  lemma WelcomeMessageNamesSubscriber(name: string)
    ensures var m := WelcomeMessage(Some(name));
      m[|"Welcome to the newsletter "|..|m| - 1] == name && m[|m| - 1] == '!'
  {
  }

  class NewsletterService {
    const repository: MongoDbSubscriberRepository

    constructor (repository: MongoDbSubscriberRepository)
      ensures this.repository == repository
    {
      this.repository := repository;
    }

    /**
      Sign-up: an invalid input fails, an email already present fails, a
      failed insert fails; otherwise the subscriber is appended and welcomed.
      The store changes only on success.
     */
    method SignUpForNewsletter(subscriber: Option<Subscriber>) returns (r: OperationResult)
      modifies repository
      ensures !SignUpInputIsValid(subscriber) ==>
        r == Failure(InvalidSubscriberMessage) && repository.documents == old(repository.documents)
      ensures SignUpInputIsValid(subscriber) && HasEmail(old(repository.documents), subscriber.value.email.value) ==>
        r == Failure(AlreadySubscribedMessage) && repository.documents == old(repository.documents)
      ensures SignUpInputIsValid(subscriber) && !HasEmail(old(repository.documents), subscriber.value.email.value) ==>
        || (r == Failure(AddFailedMessage) && repository.documents == old(repository.documents))
        || (r == Success(WelcomeMessage(subscriber.value.name))
            && repository.documents == old(repository.documents) + [subscriber.value])
      ensures r.IsSuccess() ==> SignUpInputIsValid(subscriber) && HasEmail(repository.documents, subscriber.value.email.value)
      ensures UniqueEmails(old(repository.documents)) ==> UniqueEmails(repository.documents)
    {
      if !SignUpInputIsValid(subscriber) {
        return Failure(InvalidSubscriberMessage);
      }
      var s := subscriber.value;
      var existing := repository.GetByEmail(s.email);
      if existing.Some? {
        return Failure(AlreadySubscribedMessage);
      }
      var success := repository.Add(subscriber);
      if !success {
        return Failure(AddFailedMessage);
      }
      assert repository.documents[|repository.documents| - 1] == s;
      return Success(WelcomeMessage(s.name));
    }

    /**
      Opt-out: a null or empty email fails (white space alone is looked up),
      an absent email fails, a failed delete fails; otherwise one record of
      that email is removed and the fixed confirmation returned.
     */
    method OptOutFromNewsletter(email: NullableString) returns (r: OperationResult)
      modifies repository
      ensures IsNullOrEmpty(email) ==>
        r == Failure(InvalidEmailMessage) && repository.documents == old(repository.documents)
      ensures !IsNullOrEmpty(email) && !HasEmail(old(repository.documents), email.value) ==>
        r == Failure(NotFoundMessage) && repository.documents == old(repository.documents)
      ensures !IsNullOrEmpty(email) && HasEmail(old(repository.documents), email.value) ==>
        || (r == Failure(RemoveFailedMessage) && repository.documents == old(repository.documents))
        || (r == Success(UnsubscribedMessage)
            && repository.documents == DeleteOne(old(repository.documents), email.value).remaining)
      ensures UniqueEmails(old(repository.documents)) ==> UniqueEmails(repository.documents)
      ensures UniqueEmails(old(repository.documents)) && r.IsSuccess() ==> !HasEmail(repository.documents, email.value)
    {
      if IsNullOrEmpty(email) {
        return Failure(InvalidEmailMessage);
      }
      var existing := repository.GetByEmail(email);
      if existing.None? {
        return Failure(NotFoundMessage);
      }
      var success := repository.Delete(email);
      if !success {
        return Failure(RemoveFailedMessage);
      }
      return Success(UnsubscribedMessage);
    }

    /** The active subscribers are exactly the stored records. */
    method GetActiveSubscriber() returns (all: seq<Subscriber>)
      ensures all == repository.documents
    {
      all := repository.GetAll();
    }
  }

  /**
    Signing up one subscriber twice in a row, from a store without that
    email: if the first call succeeds, the second fails as already
    subscribed, and exactly one record holds the email.
   */
  method SignUpTwice(service: NewsletterService, s: Subscriber) returns (first: OperationResult, second: OperationResult)
    requires UniqueEmails(service.repository.documents)
    requires s.email.Some? && !IsNullOrWhiteSpace(s.email)
    requires !HasEmail(service.repository.documents, s.email.value)
    modifies service.repository
    ensures first.IsSuccess() ==> first == Success(WelcomeMessage(s.name))
    ensures first.IsSuccess() ==> second == Failure(AlreadySubscribedMessage)
    ensures first.IsSuccess() ==> CountDocuments(service.repository.documents, s.email.value) == 1
    ensures !first.IsSuccess() ==> first == Failure(AddFailedMessage)
    ensures UniqueEmails(service.repository.documents)
  {
    first := service.SignUpForNewsletter(Some(s));
    second := service.SignUpForNewsletter(Some(s));
    UniqueMeansAtMostOne(service.repository.documents, s.email.value);
  }

  /** After a successful sign-up, looking the email up returns the subscriber that was given. */
  method SignUpThenLookUp(service: NewsletterService, s: Subscriber) returns (r: OperationResult, found: Option<Subscriber>)
    requires s.email.Some? && !HasEmail(service.repository.documents, s.email.value)
    modifies service.repository
    ensures r.IsSuccess() ==> found == Some(s)
  {
    r := service.SignUpForNewsletter(Some(s));
    found := service.repository.GetByEmail(s.email);
  }

  /** Opting out an email that is not subscribed fails as not found and leaves the list as it was. */
  method OptOutAbsent(service: NewsletterService, email: string) returns (r: OperationResult, before: seq<Subscriber>, after: seq<Subscriber>)
    requires email != "" && !HasEmail(service.repository.documents, email)
    modifies service.repository
    ensures r == Failure(NotFoundMessage)
    ensures after == before
  {
    before := service.GetActiveSubscriber();
    r := service.OptOutFromNewsletter(Some(email));
    after := service.GetActiveSubscriber();
  }

  /** After a successful opt-out, looking the email up finds nothing. */
  method OptOutThenLookUp(service: NewsletterService, email: string) returns (r: OperationResult, found: Option<Subscriber>)
    requires UniqueEmails(service.repository.documents)
    modifies service.repository
    ensures r.IsSuccess() ==> r == Success(UnsubscribedMessage) && found == None
  {
    r := service.OptOutFromNewsletter(Some(email));
    found := service.repository.GetByEmail(Some(email));
  }

  /** A white-space-only email passes the opt-out guard and is looked up, unlike in sign-up. */
  method OptOutWhiteSpaceEmail(service: NewsletterService) returns (optOut: OperationResult, signUp: OperationResult)
    modifies service.repository
    ensures optOut != Failure(InvalidEmailMessage)
    ensures signUp == Failure(InvalidSubscriberMessage)
  {
    optOut := service.OptOutFromNewsletter(Some(" "));
    signUp := service.SignUpForNewsletter(Some(Subscriber(None, Some("Ada"), Some(" "))));
  }
}
