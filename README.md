# Library application: a Dafny model of its borrowing lifecycle and surroundings

This project models a small library-management application. It covers an Express/Mongoose
server and a React client, and proves properties of their logic.

**Server: the borrowing lifecycle.**
- Issuing a book runs four guards in a fixed order:
  - the book exists
  - the book is `Available`
  - the member exists
  - the member has fewer than three loans
- A successful issue then writes three things:
  - an `active` loan record
  - the book becomes `Issued`
  - the member's loan count goes up by one
- Returning a book does the following:
  - it stamps the return date and computes the fine (one unit per whole day late)
  - it puts the book back to `Available`
  - it decrements the member's count, never below zero
- Read-only views: the overdue list and the statistics.
- The database is a value `Db` of three sequences (books, members, loans). Each route is a
  function from one `Db` to the next, together with its answer.
- The class `Library` performs the same steps in place, in source order. Each of its methods is
  proved equal to its function.

**Server: the rest.**
- The record schemas with their checks and defaults:
  - the required fields
  - the enumerations
  - strings stored trimmed
  - e-mail addresses lower-cased
  - the unique indexes on ISBN and e-mail
- The `protect` and `authorize` middleware.
- The error-to-response classification.
- The dashboard statistics.
- The cover-upload rules and the book CRUD handlers.

**Client.**
- The search and filter predicates of the five list pages.
- The local removal after a delete, and the colour and button rules of the pages.
- The two Redux slices: `books` and `auth`.

**Module layout.** The modules follow the source files:

| module | source file |
|---|---|
| `BookModel` | `Book.ts` |
| `MemberModel` | `Member.ts` |
| `BorrowingModel` | `Borrowing.ts` |
| `BorrowingRoutes` | `borrowingRoutes.ts` |
| `Auth` | `auth.ts` |
| `Errors` | the error handler, as `errorHandler.test.ts` pins it down |
| `Dashboard` | `dashboardRoutes.ts` |
| `BookRoutes` | `bookRoutes.ts` |
| `BooksListPage`, `BooksPage`, `MembersListPage`, `MembersPage`, `BorrowingsListPage` | the client pages |
| `BookSlice`, `AuthSlice` | the client slices |

Shared helper modules:
- `Text`: `toLowerCase`, `trim`, `includes`, `split`.
- `Sequences`: `filter`, lookup, grouping, newest-first.
- `ClientSearch`: the shared page tests.
- `Palette`: theme colours.
- `Wrappers` and `Documents`: `Option`, `Result`, ids, times.

**Inputs of the outside world become parameters:**
- the current time
- the id a new document receives
- the random suffix of an upload's file name
- the result of verifying a token, as a function from token to user id

## Model

| member | source | states |
|---|---|---|
| Errors.Handle | server/src/tests/errorHandler.test.ts:18-99 | The body always has status `error`. An `AppError` answers with its own status and message. A `ValidationError`, a `CastError` or a code-11000 error answers 400 with its message. A JWT error or an expired token answers 401 with its message. Any other error answers 500 with `Something went wrong`. |
| Errors.HandleOutcomes | server/src/tests/errorHandler.test.ts:29-99 | A thrown error gets 400, 401 or 500. It gets 500 exactly when it is neither a request error nor a token error. The message sent is the original message or the generic one. |
| Errors.ValidationError | server/src/tests/errorHandler.test.ts:29-39 | A schema validation failure is classified as a request error (400), not a token error. |
| Errors.DuplicateKeyError | server/src/tests/errorHandler.test.ts:53-64 | A unique-index violation (code 11000) is classified as a request error (400). |
| Errors.HandlerExamples | server/src/tests/errorHandler.test.ts:18-99 | The seven cases of the test file, each with its status and message. |
| BookModel.ParseStatus | server/src/models/Book.ts:35-39 | A status string is accepted exactly when it names one of Available, Issued or Reserved. |
| BookModel.Validate | server/src/models/Book.ts:17-64 | A book is built exactly when all of these hold: title, author, ISBN and category are present and non-blank after trimming; the status is absent or in the enumeration. Otherwise the answer is a `ValidationError`. String fields are stored trimmed, the status defaults to Available, and the record is well-formed. |
| BookModel.Failures | server/src/models/Book.ts:17-64 | No field check fails exactly when title, author, ISBN and category are present and non-blank after trimming and the status is absent or in the enumeration. |
| BookModel.RevalidateStored | server/src/models/Book.ts:19-59 | Saving a stored book's own fields again gives the same book, because trimming a trimmed field changes nothing. |
| BookModel.FindBook | server/src/routes/borrowingRoutes.ts:41-44 | `findById` finds the position of a book with that id, or there is none. |
| BookModel.FindIsbn | server/src/models/Book.ts:29-34 | Finds the position of a book holding that ISBN, or there is none. |
| BookModel.Insert | server/src/models/Book.ts:29-34 | A save succeeds exactly when validation passes and both the id and the ISBN are new; it appends the book. A valid book that clashes raises a code-11000 error. A valid catalog stays valid. |
| BookModel.AppendKeepsCatalog | server/src/models/Book.ts:29-34 | Appending a well-formed book with a new id and a new ISBN keeps ids and ISBNs unique. |
| BookModel.SetStatusKeepsCatalog | server/src/models/Book.ts:35-39 | Changing one book's status to any enumeration value keeps the catalog valid. |
| MemberModel.ParseMembership | server/src/models/Member.ts:35-39 | A tier string is accepted exactly when it names Regular, Premium or Student. |
| MemberModel.NormaliseEmailIdempotent | server/src/models/Member.ts:23-29 | A normalised address is trimmed and lower-case, and normalising it again changes nothing. |
| MemberModel.Validate | server/src/models/Member.ts:16-60 | A member is built exactly when all of these hold: name, e-mail and phone are present after trimming; the tier is absent or in the enumeration; the loan count is absent or at least 0. Otherwise the answer is a `ValidationError`. Defaults are tier Regular, 0 loans and join date now. The e-mail address is stored trimmed and lower-cased. |
| MemberModel.Failures | server/src/models/Member.ts:16-60 | No field check fails exactly when name, e-mail and phone are present after trimming, the tier is absent or in the enumeration, and the loan count is absent or at least 0. |
| MemberModel.RevalidateStored | server/src/models/Member.ts:18-52 | Saving a stored member's own fields again gives the same member. |
| MemberModel.FindMember | server/src/routes/borrowingRoutes.ts:50-53 | `findById` finds the position of a member with that id, or there is none. |
| MemberModel.FindEmail | server/src/models/Member.ts:23-29 | Finds the position of the member holding an address, or there is none. |
| MemberModel.Insert | server/src/models/Member.ts:23-29 | A save succeeds exactly when validation passes and both the id and the normalised e-mail are new; it appends the member. A clash raises a code-11000 error. The collection stays valid. |
| MemberModel.AppendKeepsMembers | server/src/models/Member.ts:23-29 | Appending a well-formed member with a new id and a new e-mail keeps ids and addresses unique. |
| MemberModel.EmailCaseIsIgnored | server/src/models/Member.ts:26-28 | Two addresses differing only in case or surrounding spaces clash at the unique index. |
| MemberModel.SetLoansKeepsMembers | server/src/models/Member.ts:40-44 | Changing one member's loan count to any non-negative value keeps the collection valid. |
| BorrowingModel.Create | server/src/models/Borrowing.ts:15-51 | A record is created exactly when book, member and a due date are given; otherwise the answer is a `ValidationError`. It is `active` with fine 0 and no return date, and it was borrowed now. |
| BorrowingModel.Fine | server/src/models/Borrowing.ts:61-62 | The fine is never negative and is 0 for a return less than a day late. For a return `d` milliseconds late, the fine is the number of whole days in `d`. |
| BorrowingModel.FineWholeDays | server/src/models/Borrowing.ts:61 | A return `k` whole days and a part of a day late is fined exactly `k`. |
| BorrowingModel.FineMonotone | server/src/models/Borrowing.ts:61-62 | For a fixed due date, a later return is never fined less. |
| BorrowingModel.RecalculatedChangesOnlyFine | server/src/models/Borrowing.ts:59-65 | `calculateFine` changes only the fine. It changes nothing unless the record is `returned` with a return date; then it sets the fine by the rule above. |
| BorrowingModel.Recalculated | server/src/models/Borrowing.ts:59-65 | A returned record with a return date gets the fine of its lateness; any other record is left as it is. |
| BorrowingModel.RecalculatedIdempotent | server/src/models/Borrowing.ts:59-65 | Calculating the fine twice gives the same record as calculating it once. |
| BorrowingModel.FindBorrowing | server/src/routes/borrowingRoutes.ts:83-86 | `findById` finds the position of a loan with that id, or there is none. |
| BorrowingModel.BorrowingDocument.Load | server/src/routes/borrowingRoutes.ts:83 | A loaded document holds exactly the stored record. |
| BorrowingModel.BorrowingDocument.CalculateFine | server/src/models/Borrowing.ts:59-65 | The method updates the document's fine in place to the recalculated record and returns the current fine. |
| BorrowingRoutes.Issue | server/src/routes/borrowingRoutes.ts:36-78 | The guards answer in source order: 404 no book; 400 book not Available; 404 no member; 400 at three loans. Every error leaves the database as it was. The issue succeeds exactly when the guards pass, a due date is given and the new id is unused. The new record is `active`, fine 0, due on the given date. Only that book becomes Issued, only that member's count goes up by one, and the record is appended. |
| BorrowingRoutes.Commit | server/src/routes/borrowingRoutes.ts:59-71 | The three saves of an accepted issue: the record appended, the book `Issued`, the member's count one higher. |
| BorrowingRoutes.IssuedStoresValid | server/src/routes/borrowingRoutes.ts:59-71 | Those three saves keep every collection valid when the new record's id is fresh and its fine non-negative. |
| BorrowingRoutes.Decrement | server/src/routes/borrowingRoutes.ts:104 | `Math.max(0, n - 1)` on a count. |
| BorrowingRoutes.Returned | server/src/routes/borrowingRoutes.ts:88-91 | The returned record is `returned`, has the return date now and has the fine recomputed for that date; nothing else changes. |
| BorrowingRoutes.Return | server/src/routes/borrowingRoutes.ts:81-113 | An unknown id answers 404 and changes nothing. Otherwise the record is replaced by its returned form. The book, if it still exists, becomes Available. The member, if it still exists, has its count decremented, floored at 0. Nothing else changes, and the prior status is not checked. |
| BorrowingRoutes.ReleaseBook | server/src/routes/borrowingRoutes.ts:95-99 | The book the record names, when it still exists, becomes `Available`; otherwise the books are unchanged. |
| BorrowingRoutes.ReleaseMember | server/src/routes/borrowingRoutes.ts:102-106 | The member the record names, when they still exist, has one loan fewer, never below zero; otherwise the members are unchanged. |
| BorrowingRoutes.ReleaseBookKeepsCatalog | server/src/routes/borrowingRoutes.ts:95-99 | Releasing the book keeps the catalog valid. |
| BorrowingRoutes.ReleaseMemberKeepsMembers | server/src/routes/borrowingRoutes.ts:102-106 | Releasing the loan keeps the members valid. |
| BorrowingRoutes.IssueKeepsValid | server/src/routes/borrowingRoutes.ts:36-78 | An issue keeps the database valid: catalog, members and a ledger with unique ids and fines of at least 0. |
| BorrowingRoutes.ReturnKeepsValid | server/src/routes/borrowingRoutes.ts:81-113 | A return keeps the database valid. |
| BorrowingRoutes.IssueKeepsBound | server/src/routes/borrowingRoutes.ts:54-70 | If every member has at most three loans before an issue, that still holds after it. |
| BorrowingRoutes.ReturnKeepsBound | server/src/routes/borrowingRoutes.ts:104 | If every member has at most three loans before a return, that still holds after it. |
| BorrowingRoutes.RunKeepsBound | server/src/routes/borrowingRoutes.ts:54-104 | After any sequence of issues and returns from a valid database where every count is at most three, every count is still at most three and the database is still valid. |
| BorrowingRoutes.Apply | server/src/routes/borrowingRoutes.ts:36-106 | One request served: an issue request by `Issue`, a return request by `Return`. |
| BorrowingRoutes.Run | server/src/routes/borrowingRoutes.ts:36-106 | Requests served one after another, each on the stores the previous one left. |
| BorrowingRoutes.IssueKeepsConsistent | server/src/routes/borrowingRoutes.ts:59-71 | Suppose every member's count equals its number of open loans, and every book is Issued exactly when it has one open loan. Then that still holds after an issue. |
| BorrowingRoutes.CommitKeepsConsistent | server/src/routes/borrowingRoutes.ts:59-71 | The three saves of an accepted issue keep every member's count equal to their open loans and every book's status in line with its open loans. |
| BorrowingRoutes.ReturnTwiceMiscounts | server/src/routes/borrowingRoutes.ts:88-106 | Returning the same loan twice succeeds both times. The member's count drops to 0 while one of its loans is still open, so counts and loans no longer agree. The corrected return refuses the second call. |
| BorrowingRoutes.ReturnOnce | server/src/routes/borrowingRoutes.ts:81-113 | Corrected return: a loan already `returned` is refused with 400 and nothing changes. Otherwise it behaves exactly as the return route. |
| BorrowingRoutes.ReturnOnceKeepsConsistent | server/src/routes/borrowingRoutes.ts:88-106 | The corrected return keeps counts and books in agreement with the open loans. |
| BorrowingRoutes.ByMember | server/src/routes/borrowingRoutes.ts:24-33 | The loans of a member are exactly the loans whose member is that id. They keep their stored order, each occurs as often as it is stored, and nothing else is listed. |
| BorrowingRoutes.Overdue | server/src/routes/borrowingRoutes.ts:116-128 | The overdue list holds exactly the `active` loans due before now, each as often as it is stored. |
| BorrowingRoutes.SumOfReturned | server/src/routes/borrowingRoutes.ts:139-142 | The matched-then-summed fines equal the sum of the fines of the `returned` loans. |
| BorrowingRoutes.ReturnedFinesNonNegative | server/src/routes/borrowingRoutes.ts:139-148 | With no negative fine stored, the total of fines is at least 0. |
| BorrowingRoutes.NoReturnedNoFines | server/src/routes/borrowingRoutes.ts:148 | With no `returned` loan, the total of fines is 0. |
| BorrowingRoutes.BorrowingStats | server/src/routes/borrowingRoutes.ts:131-153 | The statistics satisfy overdue ≤ active ≤ total = number of loans. Overdue and active count those loans. The total of fines is the sum over `returned` loans: at least 0 for a valid ledger, and 0 with none returned. |
| BorrowingRoutes.StatsRoute | server/src/routes/borrowingRoutes.ts:131 | Only a signed-in admin or librarian gets the statistics; anyone else gets the middleware's error. |
| BorrowingRoutes.Library.constructor | server/src/routes/borrowingRoutes.ts:36-113 | The in-place database starts as the given value. |
| BorrowingRoutes.Library.IssueBook | server/src/routes/borrowingRoutes.ts:36-78 | The in-place issue, step by step as the route does it, ends in the state and the answer of the issue function. |
| BorrowingRoutes.Library.ReturnBook | server/src/routes/borrowingRoutes.ts:81-113 | The in-place return loads the record and sets status and return date. It calls `CalculateFine`, then updates book and member, and ends in the state and the answer of the return function. |
| Auth.FindUser | server/src/middleware/auth.ts:35-38 | Finds the user with that id, or reports that none has it. |
| Auth.Token | server/src/middleware/auth.ts:26 | The token is the second space-separated segment of a bearer header, so it has no space. |
| Auth.TokenOfBearer | server/src/middleware/auth.ts:26 | A bearer header splits into `Bearer` followed by the segments of the rest. |
| Auth.TokenRoundTrip | server/src/middleware/auth.ts:21-26 | The token of `Bearer t` is `t` when `t` has no space, and otherwise its first segment. |
| Auth.Protect | server/src/middleware/auth.ts:18-46 | Every failure is the same 401: no header, no bearer prefix, a token that does not verify, a user that does not exist. Success happens exactly when all four checks pass, and yields the user the token names. |
| Auth.ProtectRefusesUnverified | server/src/middleware/auth.ts:21-33 | A bearer header whose token has no space and does not verify is refused with 401, whatever the users. |
| Auth.Authorize | server/src/middleware/auth.ts:48-65 | No user gives 401 and an unlisted role gives 403 naming the role. There is no error exactly when the user is present and the role is listed. |
| Auth.Guard | server/src/routes/dashboardRoutes.ts:12-13 | `protect` then `authorize` admits exactly a signed-in user with a listed role. A `protect` error passes as it is; a refusal after it is 403. |
| Auth.ProtectRefusesMissingHeader | server/src/tests/auth.test.ts:23-26 | A request without an `Authorization` header is refused with 401. |
| Auth.ProtectRefusesOtherScheme | server/src/tests/auth.test.ts:28-34 | A header `InvalidToken`, lacking the bearer prefix, is refused with 401. |
| Auth.ProtectRefusesBadToken | server/src/tests/auth.test.ts:36-42 | A bearer token that does not verify is refused with 401. |
| Auth.AuthorizeExamples | server/src/tests/auth.test.ts:46-63 | Anonymous gives 401, `member` on an admin route gives 403, and `admin` passes. |
| Auth.Request.constructor | server/src/middleware/auth.ts:18-20 | A request starts with its header, no user and no call to `next`. |
| Auth.Request.RunProtect | server/src/middleware/auth.ts:18-46 | The middleware attaches the user on success and calls `next` exactly once: with no error on success and with the 401 otherwise. |
| Auth.Request.RunAuthorize | server/src/middleware/auth.ts:48-65 | Calls `next` exactly once with the decision of `authorize` and changes nothing else. |
| Dashboard.Statuses | server/src/routes/dashboardRoutes.ts:20-27 | The status of every book, in stored order. |
| Dashboard.Tiers | server/src/routes/dashboardRoutes.ts:33-40 | The tier of every member, in stored order. |
| Dashboard.BookSummaries | server/src/routes/dashboardRoutes.ts:43-47 | Each listed book is summarised by id, title, author and status. |
| Dashboard.MemberSummaries | server/src/routes/dashboardRoutes.ts:48-52 | Each listed member is summarised by id, name, e-mail and tier. |
| Dashboard.Compute | server/src/routes/dashboardRoutes.ts:15-61 | The totals are the numbers of books and members. Each grouping has distinct keys, and its counts sum to its total. The recent lists hold min(5, n) entries: the summaries of the newest documents. |
| Dashboard.GroupsCountExactly | server/src/routes/dashboardRoutes.ts:20-40 | Each group counts exactly the documents with its key, and every key that occurs has a group. |
| Dashboard.RecentAreNewest | server/src/routes/dashboardRoutes.ts:43-52 | The recent lists are newest first and drawn from the stored documents. No document left out is newer than one listed. |
| Dashboard.StatsRoute | server/src/routes/dashboardRoutes.ts:10-13 | Only a signed-in admin or librarian gets the statistics; anyone else gets the middleware's error. |
| Dashboard.StatsRouteRefusals | server/src/routes/dashboardRoutes.ts:12-13 | An unauthenticated caller gets 401; a signed-in user of another role gets 403. |
| BookRoutes.FileFilter | server/src/routes/bookRoutes.ts:21-27 | A file is accepted exactly when its media type starts with `image/`; otherwise the answer is the "Not an image" error. |
| BookRoutes.Extension | server/src/routes/bookRoutes.ts:17 | The extension, the text after the last dot, never contains a dot. |
| BookRoutes.JoinLast | server/src/routes/bookRoutes.ts:17 | Joining segments is joining all but the last, then the separator, then the last. |
| BookRoutes.ExtensionSplitsName | server/src/routes/bookRoutes.ts:17 | A name without a dot is its own extension. A name with one is its stem, a dot and its extension. |
| BookRoutes.StoredFilenameKeepsExtension | server/src/routes/bookRoutes.ts:15-18 | The stored file name `fieldname-suffix.ext` has the extension of the uploaded name. |
| BookRoutes.StoredFilename | server/src/routes/bookRoutes.ts:15-18 | The stored name is the field name, `-`, the unique suffix, `.`, and the original name's extension; the lemma above proves the extension survives. |
| BookRoutes.Upload | server/src/routes/bookRoutes.ts:15-61 | No file gives no name. A file under any field other than `coverImage` (the field `upload.single` names at :61 and :76) is refused as an unexpected field before the filter runs. A non-image is refused by the filter. An image over 5·1024·1024 bytes is refused as too large. Otherwise, and only then, the file is stored under its derived name. |
| BookRoutes.UploadErrorsAre500 | server/src/routes/bookRoutes.ts:21-35 | Each way the upload can fail reaches the error handler as a plain error and is answered with 500. |
| BookRoutes.CoverImage | server/src/routes/bookRoutes.ts:63-66 | The cover is `/uploads/` plus the file name when a file was stored, and absent otherwise. |
| BookRoutes.HandlerResponse | server/src/routes/bookRoutes.ts:61 | An error raised by the middleware reaches the error handler and is answered as it classifies it. |
| BookRoutes.ListBooks | server/src/routes/bookRoutes.ts:38-45 | Every stored book is listed, with status 200. |
| BookRoutes.GetBook | server/src/routes/bookRoutes.ts:48-58 | An unknown id answers 404 `Book not found`; otherwise 200 with the book. |
| BookRoutes.CreateBook | server/src/routes/bookRoutes.ts:61-73 | The route runs in order: authentication, upload, validation and unique indexes. A success answers 201 with the new book and appends it. A failed save answers 400 `Error creating book` and changes nothing. The catalog stays valid. |
| BookRoutes.Patched | server/src/routes/bookRoutes.ts:78-85 | An update keeps the id and the creation time. An empty update without a file changes nothing. |
| BookRoutes.UpdateBook | server/src/routes/bookRoutes.ts:76-94 | An unknown id answers 404. An ISBN held by another book answers 400 `Error updating book`. Otherwise the book is replaced by its updated form, with 200. Any answer but 200 changes nothing. |
| BookRoutes.IsbnTaken | server/src/routes/bookRoutes.ts:78-92 | Some other book already has the ISBN, so the unique index refuses the update and the route answers 400. |
| BookRoutes.UpdateKeepsCatalog | server/src/routes/bookRoutes.ts:76-94 | An update that blanks no required field keeps the catalog valid. |
| BookRoutes.PatchedWellFormed | server/src/routes/bookRoutes.ts:78-85 | Patching a well-formed book with no blank required field gives a well-formed book: every present string is stored trimmed. |
| BookRoutes.PlaceKeepsCatalog | server/src/routes/bookRoutes.ts:78-85 | Storing such a book in place of the old one keeps the catalog valid when no other book has its ISBN. |
| BookRoutes.RemoveAt | server/src/routes/bookRoutes.ts:99 | Removing a position keeps every other book in order. |
| BookRoutes.DeleteBook | server/src/routes/bookRoutes.ts:97-108 | An unknown id answers 404. Otherwise the book is removed and the answer is 200 `Book deleted successfully`. |
| BookRoutes.RemoveAtKeepsOthers | server/src/routes/bookRoutes.ts:99 | Every other book is still there after a removal. |
| BookRoutes.RemoveAtKeepsCatalog | server/src/routes/bookRoutes.ts:99 | Removing a book keeps the catalog valid and leaves no book with its id. |
| BookRoutes.DeleteRemovesOnlyThatBook | server/src/routes/bookRoutes.ts:97-108 | After a delete no book has that id, every other book is kept, and the catalog stays valid. |
| ClientSearch.MatchesIgnoresCase | client/src/pages/books/BooksList.tsx:86-88 | A term matches exactly when its lower-cased form occurs in the lower-cased field. The case of neither term nor field changes the answer. |
| ClientSearch.Matches | client/src/pages/books/BooksList.tsx:86-88 | `field.toLowerCase().includes(term.toLowerCase())`, the test each list page applies per searched field. |
| ClientSearch.Passes | client/src/pages/books/BooksList.tsx:90-92 | The drop-down test: `all` passes every value, any other choice only an equal one. |
| ClientSearch.MatchesEmpty | client/src/pages/books/BooksList.tsx:86 | The empty term matches every field. |
| ClientSearch.PassesExactly | client/src/pages/books/BooksList.tsx:89-92 | `all` passes everything; any other choice passes exactly the equal values. |
| ClientSearch.NotIncludedWithout | client/src/pages/Books.tsx:103 | A term holding a character absent from a string is not included in it. |
| BooksListPage.Filtered | client/src/pages/books/BooksList.tsx:84-94 | The result is an order-preserving subsequence: each book is kept as often as stored when it passes all three tests, and not at all otherwise. With a category or status chosen, every kept book has it. |
| BooksListPage.ShowAll | client/src/pages/books/BooksList.tsx:84-94 | An empty search with both filters on `all` lists every book. |
| BooksListPage.FilteredIdempotent | client/src/pages/books/BooksList.tsx:84-94 | Filtering the result again with the same settings changes nothing. |
| BooksListPage.SearchIgnoresCase | client/src/pages/books/BooksList.tsx:85-88 | The case of the search term does not change the result. |
| BooksListPage.StatusChip | client/src/pages/books/BooksList.tsx:193 | The chip is green exactly for `Available` and amber otherwise. |
| ClientSearch.SearchQuery | client/src/pages/Books.tsx:75-78 | The stored query has the typed length and is lower-case already; the members page's `handleSearch` (Members.tsx:78-81) is the same. |
| BooksPage.FilteredAsWritten | client/src/pages/Books.tsx:99-104 | As written: an order-preserving subsequence that keeps exactly the books whose lower-cased title or author, or raw ISBN, contains the query. |
| BooksPage.MatchesAsWritten | client/src/pages/Books.tsx:99-104 | The search test as written: the lower-cased title or author contains the query, or the ISBN as stored does. |
| BooksPage.IsbnCheckDigitMissed | client/src/pages/Books.tsx:76-103 | Counterexample input: typing `957X` does not find the book with ISBN `080442957X`, while the corrected filter finds it. |
| BooksPage.Filtered | client/src/pages/Books.tsx:99-104 | Corrected: the same subsequence with the ISBN lower-cased too. |
| BooksPage.FilteredIgnoresCase | client/src/pages/Books.tsx:76-104 | With the correction, the typed query's case does not matter. A book whose lower-cased title or ISBN contains the lower-cased input is found. The empty query lists everything. |
| BooksPage.EmptyQueryKeepsAll | client/src/pages/Books.tsx:99-104 | As written, the empty query lists every book. |
| BooksPage.RemoveBook | client/src/pages/Books.tsx:83 | After a delete, exactly the books with another id are kept, in order, each as often as before. |
| BooksPage.RemoveBookProperties | client/src/pages/Books.tsx:83 | Removing an absent id changes nothing, and removing twice is removing once. |
| BooksPage.StatusColour | client/src/pages/Books.tsx:106-117 | Available is success, Issued is warning, Reserved is error. Exactly the other strings are grey. |
| BooksPage.StatusColoursDistinct | client/src/pages/Books.tsx:106-117 | The three statuses have three different colours, none grey. |
| MembersListPage.Filtered | client/src/pages/members/MembersList.tsx:84-94 | The result is an order-preserving subsequence keeping exactly the members that pass the search, the tier filter and the status filter. With a tier or status chosen, every kept member has it. |
| MembersListPage.FilteredProperties | client/src/pages/members/MembersList.tsx:84-94 | An empty search with `all` filters lists every member, and filtering twice changes nothing. |
| MembersListPage.SearchIgnoresCase | client/src/pages/members/MembersList.tsx:85-88 | The case of the search term over name, e-mail and phone does not change the result. |
| MembersListPage.MembershipChip | client/src/pages/members/MembersList.tsx:196-201 | Premium is secondary, Student is info, anything else is default. |
| MembersListPage.LoansChip | client/src/pages/members/MembersList.tsx:210 | The loan chip is highlighted exactly when books are on loan. |
| MembersListPage.StatusChip | client/src/pages/members/MembersList.tsx:217 | The status chip is green exactly for `Active` and red otherwise. |
| MembersListPage.DeleteDisabledIffHighlighted | client/src/pages/members/MembersList.tsx:210-233 | Delete is disabled exactly when `booksIssued > 0`, which is exactly when the loan chip is highlighted. |
| MembersListPage.DeleteDisabled | client/src/pages/members/MembersList.tsx:233 | The delete button is disabled for a member with any book on loan. |
| MembersPage.Filtered | client/src/pages/Members.tsx:102-107 | An order-preserving subsequence keeping exactly the members whose lower-cased name or e-mail, or raw phone, contains the query. |
| MembersPage.FilteredMatches | client/src/pages/Members.tsx:78-107 | A stored member is listed exactly when its name or e-mail matches the typed input in any case, or its phone contains the lower-cased input. The empty query lists everyone. |
| MembersPage.RemoveMember | client/src/pages/Members.tsx:86 | After a delete, exactly the members with another id are kept, in order. |
| MembersPage.RemoveMemberProperties | client/src/pages/Members.tsx:86 | Removing an absent id changes nothing, and removing twice is removing once. |
| MembersPage.MembershipColour | client/src/pages/Members.tsx:109-120 | Premium is primary, Regular is success, Student is warning. Exactly the other strings are grey. |
| MembersPage.LoanColour | client/src/pages/Members.tsx:222-226 | The loan count is red exactly above two and green otherwise. |
| MembersPage.ColoursDistinguish | client/src/pages/Members.tsx:109-120 | The three tiers have distinct non-grey colours. The count turns red exactly at the server's limit of three loans. |
| BorrowingsListPage.Filtered | client/src/pages/borrowings/BorrowingsList.tsx:84-91 | An order-preserving subsequence keeping exactly the loans that pass the search on book title or member name and the status filter. |
| BorrowingsListPage.FilteredProperties | client/src/pages/borrowings/BorrowingsList.tsx:84-91 | An empty search on `all` lists everything, filtering twice changes nothing, and the term's case does not matter. |
| BorrowingsListPage.StatusColour | client/src/pages/borrowings/BorrowingsList.tsx:47-51 | The colour is defined exactly for Borrowed (primary), Returned (success) and Overdue (error). |
| BorrowingsListPage.ReturnAction | client/src/pages/borrowings/BorrowingsList.tsx:198-215 | A return button is offered exactly for Borrowed and Overdue, the red one for Overdue. |
| BorrowingsListPage.ReturnOnlyWhenOpen | client/src/pages/borrowings/BorrowingsList.tsx:198-215 | A returned loan offers no return, and a row offering one has a non-success chip. |
| BorrowingsListPage.ServerStatusesUnmatched | client/src/pages/borrowings/BorrowingsList.tsx:47-51 | The server's `active`, `returned` and `overdue` get neither a chip colour nor a return button. |
| BorrowingsListPage.ServerStatus | server/src/models/Borrowing.ts:38-42 | A status string is one the server stores: `active`, `returned` or `overdue`. |
| BorrowingsListPage.ChoiceNotStored | client/src/pages/borrowings/BorrowingsList.tsx:146-149 | None of the drop-down's choices `Borrowed`, `Returned`, `Overdue` is a status the server stores. |
| BorrowingsListPage.ServerLoansNeverListed | client/src/pages/borrowings/BorrowingsList.tsx:88-89 | A status choice other than `all` lists none of the loans as the server stores them. |
| BookSlice.Reduce | client/src/features/books/bookSlice.tsx:24-30 | A fetch replaces the list with its payload. An add appends its payload, with earlier entries unchanged. Neither touches the status. |
| BookSlice.StatusNeverChanges | client/src/features/books/bookSlice.tsx:24-30 | No run of actions changes the status. |
| BookSlice.AddsAppend | client/src/features/books/bookSlice.tsx:28-29 | Books added one by one are appended in the order they were added. |
| BookSlice.FetchThenAdds | client/src/features/books/bookSlice.tsx:26-29 | After a fetch the list is its payload followed by the books added since. |
| BookSlice.BooksDraft.constructor | client/src/features/books/bookSlice.tsx:24 | The initial state is no books and status `idle`. |
| BookSlice.BooksDraft.FetchFulfilled | client/src/features/books/bookSlice.tsx:26-27 | The in-place fetch case ends in the reducer's state. |
| BookSlice.BooksDraft.AddFulfilled | client/src/features/books/bookSlice.tsx:28-29 | The in-place push ends in the reducer's state. |
| BookSlice.AddBookForm | client/src/features/books/bookSlice.tsx:11-16 | The form holds title, then author, then the cover exactly when one is present. |
| AuthSlice.Initial | client/src/features/auth/authSlice.tsx:6-12 | The initial state has the stored user, all flags false and an empty message. |
| AuthSlice.Reduce | client/src/features/auth/authSlice.tsx:23-39 | Each case changes exactly its fields. Logout: the user. Pending: `isLoading` set. Fulfilled: not loading, the payload as user, success set. Rejected: not loading, error set, the payload as message. |
| AuthSlice.SettledIsNotLoading | client/src/features/auth/authSlice.tsx:32-36 | After a run ending in fulfilled or rejected, the state is not loading. |
| AuthSlice.FlagsStaySet | client/src/features/auth/authSlice.tsx:29-39 | No action clears `isError` or `isSuccess`. |
| AuthSlice.RetryAfterFailure | client/src/features/auth/authSlice.tsx:29-39 | A failed login followed by a successful one leaves both `isError` and `isSuccess` set, with the failure's message kept. |
| AuthSlice.AuthDraft.constructor | client/src/features/auth/authSlice.tsx:6-12 | The draft starts in the initial state. |
| AuthSlice.AuthDraft.RunLogout | client/src/features/auth/authSlice.tsx:23-26 | The in-place logout ends in the reducer's state. |
| AuthSlice.AuthDraft.RunPending | client/src/features/auth/authSlice.tsx:29-30 | The in-place pending case ends in the reducer's state. |
| AuthSlice.AuthDraft.RunFulfilled | client/src/features/auth/authSlice.tsx:31-34 | The in-place fulfilled case ends in the reducer's state. |
| AuthSlice.AuthDraft.RunRejected | client/src/features/auth/authSlice.tsx:35-38 | The in-place rejected case ends in the reducer's state. |

## Left out

- HTTP plumbing is left out: Express routing, `res.json`, the 500 answers of the book routes when the database fails, and logging.
- Mongoose and MongoDB mechanics are left out: queries, `populate`, `$text` search (`GET /books/search/:query`) and aggregation pipelines.
  - Each store is a sequence of documents in insertion order, not a map. The aggregates fold over an order.
  - Ids are plain strings, so a malformed ObjectId (`CastError`) cannot be expressed.
  - `GET /borrowings`, which lists every loan with `populate`, is not modelled separately.
- A request that fails partway is not modelled: each route is atomic. When one of the route's sequential saves fails, the earlier saves stay. Requests are sequential, so the double-issue race of two concurrent issues is not captured.
- JWT signing and verification and bcrypt are left out. Token verification is the `verify` parameter, and an expired token is one it rejects.
- `Date.now()`, `new Date()` and `Math.random()` are parameters. The random suffix is a given string.
- Disk storage, `FormData` and `FileReader` are left out.
- React rendering, routing, forms, axios and `localStorage` are left out. The stored user the auth slice starts with is a parameter.
- Pages with no real logic are left out: the form pages, `Dashboard.tsx` (hard-coded figures), `memberRoutes.ts` and the legacy `server/*.js` files.
- `toLowerCase` is ASCII lower-casing: letters outside `A`–`Z` keep their case. (`Trim` is JavaScript's `trim`, with its full set of white-space and line-terminator characters.)
- The schema `Number` fields `booksIssued` (Member.ts:41) and `publishedYear` (Book.ts:50) are modelled as integers. A fractional value such as `1.5`, which Mongoose stores, cannot be expressed. Neither can a numeric string, which it casts. Nor can a value that does not cast, which fails with a `CastError` and so gets a 400.
- `toFixed(2)` and `toLocaleDateString` are left out. The client loan record carries no fine for this reason.
- The dashboard's `$group` returns groups in no defined order. Here they come in first-occurrence order; only the counts and their keys are stated.
- BookRoutes.UpdateBook: the update body's status is a typed enumeration value. `findByIdAndUpdate` runs no validators, so an unknown status string could be stored; that case is not representable here. For the same reason, a blank required field is kept, and the catalog lemma excludes it.
- BookSlice.AddBookForm: a title or author that is `undefined` is not modelled; it would be sent as the text `undefined`.
- AuthSlice.Reduce: the user payload is kept as its JSON text. `loginUser` never rejects with a value, so the rejected payload (and with it the message) is absent in practice. The model keeps it as a parameter.
- The server status vocabulary (`active`/`returned`/`overdue`) and the client's (`Borrowed`/`Returned`/`Overdue`) are modelled as written and not unified. No code writes `overdue`.

## Findings

| source | as written | input that shows it | evidently intended | confidence | as-written member | corrected member |
|---|---|---|---|---|---|---|
| server/src/routes/borrowingRoutes.ts:81-106 | The return route does not check the record's status, so an already-returned loan can be returned again. It decrements the member's count a second time and recomputes the fine. | A member with two open loans returns the first one twice. Their count becomes 0 while their second loan is still open. | A loan already returned is refused (with 400), so each member's count stays equal to their number of open loans. | not executed | BorrowingRoutes.ReturnTwiceMiscounts | BorrowingRoutes.ReturnOnceKeepsConsistent |
| client/src/pages/Books.tsx:76-103 | The query is lower-cased as it is typed, but the ISBN is compared as stored. | Typing `957X` does not list the book with ISBN `080442957X`. | The ISBN is lower-cased like title and author, as `BooksList.tsx:88` does. | not executed | BooksPage.IsbnCheckDigitMissed | BooksPage.FilteredIgnoresCase |
