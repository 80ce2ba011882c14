# Newsletter subscriptions — a Dafny model

This project models the core of the CloudSoft newsletter feature: the
`Subscriber` record and the constraints declared on it, the store-backed
subscriber repository (`MongoDbSubscriberRepository`), the `NewsletterService`
rules layered over it, and the blob-storage image URL builder
(`AzureBlobImageService`).

Modules, one per source file or concept:

- `Wrappers`, `NullableStrings` — `Option` for C# nullable references, and the
  .NET helpers `string.IsNullOrEmpty`, `string.IsNullOrWhiteSpace` (white space
  as `char.IsWhiteSpace` defines it) and null-as-empty string interpolation.
- `EmailPattern` — the email pattern `^[a-zA-Z0-9._%+-]+@[a-zA-Z0-9.-]+\.[a-zA-Z]{2,}$`
  twice: as a language (`MatchesPattern`: some split local `@` domain `.` tld)
  and as a recogniser (`IsEmailShape`: split at the first `@` and the last `.`),
  proved equal, with the shape facts every accepted email has.
- `Subscribers` — the `Subscriber` record and the `[Required]`,
  `[StringLength(20)]` and `[RegularExpression]` constraints on Name and Email.
- `SubscriberCollection` — the document collection as a sequence, and the
  driver operations the repository issues (first match, count, delete one,
  replace one with upsert), with the per-email uniqueness invariant.
- `Repository` — class `MongoDbSubscriberRepository`, whose `documents` field
  is the collection and whose write methods change it.
- `Newsletter` — `OperationResult`, class `NewsletterService` holding the
  repository, and call sequences (sign up twice, opt out of an absent email,
  opt out then look up).
- `BlobImages` — class `AzureBlobImageService` with the container URL fixed at
  construction.

The source catches any exception from a write and returns false. The model
treats such a failed write as a nondeterministic outcome that commits nothing:
the method returns false and the collection is unchanged. Every method
contract holds for both outcomes. This is a simplification: a store can apply
a write and still report an error (see "## Left out"). The uniqueness invariant "at most one record per
email" is not a precondition: the collection can hold anything. Instead every
write promises to keep it when it held before.

Behaviour kept as the code has it:

- `Update` reports success only when an existing record was changed. An upsert
  that inserts a record reports false. So does a replacement equal to the
  stored record, because the store does not count that as a modification.
- Opt-out rejects only a null or empty email. An email made only of white
  space gets past that guard and is looked up. Sign-up rejects it as invalid.
- The welcome message prints a null name as nothing.
- `Exists` takes a subscriber that is not null. The source reads its email
  without a null check.

## Model

| member | source | states |
|---|---|---|
| EmailPattern.EmailShapeIsPattern | CloudSoft/Models/Subscriber.cs:20 | the recogniser accepts a string iff it splits as one or more `[a-zA-Z0-9._%+-]`, `@`, one or more `[a-zA-Z0-9.-]`, `.`, two or more ASCII letters, covering the whole string |
| EmailPattern.SplitIsUnique | CloudSoft/Models/Subscriber.cs:20 | any such split has its `@` at the first `@` and its `.` at the last `.` after it, so the split is unique |
| EmailPattern.AcceptedHasOneAt | CloudSoft/Models/Subscriber.cs:20 | an accepted email holds exactly one `@`, neither the first nor the last character |
| EmailPattern.AcceptedTopLevelDomain | CloudSoft/Models/Subscriber.cs:20 | in an accepted email the text after the last `.` is two or more ASCII letters, and at least one character lies between the `@` and that `.` |
| EmailPattern.AcceptedCharacters | CloudSoft/Models/Subscriber.cs:20 | an accepted email uses only ASCII letters, digits, `._%+-` and `@`, and holds no white space |
| Subscribers.ValidEmailIffPattern | CloudSoft/Models/Subscriber.cs:18-20 | Email passes `[Required]` and `[RegularExpression]` iff it is present and in the pattern's language |
| Subscribers.MissingEmailIsInvalid | CloudSoft/Models/Subscriber.cs:18 | a null or empty email makes the subscriber invalid |
| Subscribers.NameLimitIsInclusive | CloudSoft/Models/Subscriber.cs:13-14 | a name with a visible character is valid iff it has at most 20 characters (inclusive, whatever the message says) |
| SubscriberCollection.FirstWithEmail | CloudSoft/Repositories/MongoDbSubscriberRepository.cs:26 | the first document whose Email equals the argument; none iff no document has it |
| SubscriberCollection.CountDocuments | CloudSoft/Repositories/MongoDbSubscriberRepository.cs:99 | the number of documents with that email is positive iff one exists |
| SubscriberCollection.UniqueMeansAtMostOne | CloudSoft/Repositories/MongoDbSubscriberRepository.cs:37-46 | under the uniqueness invariant an email is held by at most one document |
| SubscriberCollection.AppendFreshKeepsUnique | CloudSoft/Repositories/MongoDbSubscriberRepository.cs:37-46 | inserting a record whose email is absent keeps at most one record per email |
| SubscriberCollection.DeleteOne | CloudSoft/Repositories/MongoDbSubscriberRepository.cs:83-84 | DeletedCount is 1 iff a document has the email, one document fewer remains, nothing is added |
| SubscriberCollection.DeleteOneCounts | CloudSoft/Repositories/MongoDbSubscriberRepository.cs:83 | delete-one removes exactly one record of that email when there is one and leaves the records of every other email |
| SubscriberCollection.DeleteOneKeepsUnique | CloudSoft/Repositories/MongoDbSubscriberRepository.cs:83 | under the invariant, deleting leaves no record of that email and keeps the invariant |
| SubscriberCollection.DeleteTwice | CloudSoft/Repositories/MongoDbSubscriberRepository.cs:83-84 | under the invariant two deletes of a present email delete one record, then none |
| SubscriberCollection.ReplaceOneUpsert | CloudSoft/Repositories/MongoDbSubscriberRepository.cs:64-66 | MatchedCount is 1 iff the email exists; with a match, the first matching record becomes the replacement and every other record stays, and ModifiedCount is positive iff that record differed from the replacement; with no match the replacement is appended and nothing counts as modified |
| SubscriberCollection.UpsertKeepsUnique | CloudSoft/Repositories/MongoDbSubscriberRepository.cs:64-65 | the email-filtered upsert keeps the invariant and leaves exactly one record with that email |
| Repository.MongoDbSubscriberRepository.constructor | CloudSoft/Repositories/MongoDbSubscriberRepository.cs:11-14 | the repository starts over the given collection |
| Repository.MongoDbSubscriberRepository.GetAll | CloudSoft/Repositories/MongoDbSubscriberRepository.cs:16-17 | returns every stored record |
| Repository.MongoDbSubscriberRepository.GetByEmail | CloudSoft/Repositories/MongoDbSubscriberRepository.cs:19-27 | none for a null or empty email; otherwise a record is returned iff one has that email, and it is the first such record |
| Repository.MongoDbSubscriberRepository.Add | CloudSoft/Repositories/MongoDbSubscriberRepository.cs:30-53 | false and no change without an email or with a taken email; true only when exactly that record was appended; a rejected write changes nothing; keeps the invariant |
| Repository.MongoDbSubscriberRepository.Update | CloudSoft/Repositories/MongoDbSubscriberRepository.cs:55-72 | false and no change without an email; otherwise the collection is unchanged or is the upsert's result; true iff an existing record was changed; an insert reports false; keeps the invariant |
| Repository.MongoDbSubscriberRepository.Delete | CloudSoft/Repositories/MongoDbSubscriberRepository.cs:74-90 | false for a null or empty email; true only if a record with that email existed and delete-one was applied; otherwise nothing changes; keeps the invariant and then leaves the email absent |
| Repository.MongoDbSubscriberRepository.Exists | CloudSoft/Repositories/MongoDbSubscriberRepository.cs:92-100 | true iff the email is neither null nor empty and some record has it |
| Repository.DeleteTwiceInARow | CloudSoft/Repositories/MongoDbSubscriberRepository.cs:74-90 | two deletes of one email: never both true; both false for an absent or empty email |
| Newsletter.WelcomeMessageNamesSubscriber | CloudSoft/Services/NewsletterService.cs:39 | the welcome message holds the subscriber's name verbatim, followed by `!` |
| Newsletter.NewsletterService.constructor | CloudSoft/Services/NewsletterService.cs:11-14 | the service holds the given repository |
| Newsletter.NewsletterService.SignUpForNewsletter | CloudSoft/Services/NewsletterService.cs:16-41 | invalid input, then a taken email, then a failed insert each fail with their message and change nothing; success welcomes by name and appends exactly the subscriber, whose email is then found; keeps the invariant |
| Newsletter.NewsletterService.OptOutFromNewsletter | CloudSoft/Services/NewsletterService.cs:43-70 | a null or empty email, then an absent email, then a failed delete each fail with their message and change nothing; success returns the fixed confirmation after delete-one; under the invariant the email is then absent |
| Newsletter.NewsletterService.GetActiveSubscriber | CloudSoft/Services/NewsletterService.cs:72-77 | returns exactly the repository's records |
| Newsletter.SignUpTwice | CloudSoft/Services/NewsletterService.cs:25-39 | for a new email, if the first sign-up succeeds the second fails as already subscribed and exactly one record holds the email |
| Newsletter.SignUpThenLookUp | CloudSoft/Services/NewsletterService.cs:25-39 | after a successful sign-up of a new email, looking it up returns that subscriber |
| Newsletter.OptOutAbsent | CloudSoft/Services/NewsletterService.cs:53-58 | opting out an absent email fails as not found and the active list is unchanged |
| Newsletter.OptOutThenLookUp | CloudSoft/Services/NewsletterService.cs:53-69 | after a successful opt-out, looking the email up finds nothing |
| Newsletter.OptOutWhiteSpaceEmail | CloudSoft/Services/NewsletterService.cs:19-50 | a white-space-only email passes the opt-out guard (null or empty only, lines 47-50) but is rejected as invalid by the sign-up guard (null, empty or white space, lines 19-22) |
| BlobImages.AzureBlobImageService.constructor | CloudSoft/Services/AzureBlobImageService.cs:10-13 | the container URL is the configured one |
| BlobImages.AzureBlobImageService.GetImageUrl | CloudSoft/Services/AzureBlobImageService.cs:21-24 | the URL starts with the container URL, has `/` at index \|container\|, ends with the image name, and is \|container\| + 1 + \|name\| long |
| BlobImages.ImageUrlIsInjective | CloudSoft/Services/AzureBlobImageService.cs:16-23 | no normalisation: different image names give different URLs |

## Left out

- Asynchrony (`async`/`Task`): every operation is a plain sequential method.
- Concurrency: the race between the service's duplicate check and the insert is not modelled; the model is sequential.
- The in-memory repository and the repository and service interfaces are not part of this model; the service holds the store-backed repository directly.
- Exceptions from the read operations (`GetAll`, `GetByEmail`, `Exists`) and from the duplicate check inside `Add` are not caught in the source and propagate; the model treats these reads as always succeeding.
- Store-side details: query translation, ObjectId generation for `Id`, BSON mapping, unique indexes, and a replacement rejected for changing `_id`. `Id` is carried as an opaque value.
- Which write faults occur: a rejected write is a nondeterministic outcome, not a modelled cause.
- A write the store applied but the driver still reported as failed (a write-concern error, a time-out) is not modelled. In the model a failed write commits nothing. In the source, `Add` can then return false with the record stored, and sign-up can answer "Failed to add subscriber" for an email that is now taken. `Update` and `Delete` can likewise report false after their write took effect.
- The `[EmailAddress]` attribute on Email, and model binding and validation in the controller. The validators here are standalone; the service does not call them.
- String lengths count Unicode scalar values; .NET counts UTF-16 code units, so names with characters outside the Basic Multilingual Plane are measured differently.
- A null image name (which interpolation would print as nothing) is not modelled; `GetImageUrl` takes a non-null name.
- Presentation, dependency wiring and the local image service (`Program.cs`, the controller, `LocalImageService`, the options holder) are framework glue outside the core.
- The property "N successful sign-ups with distinct emails list exactly N records" is not stated as its own member; it follows from `SignUpForNewsletter` appending exactly one record per success.
