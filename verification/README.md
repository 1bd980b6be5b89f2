# Verified model of djangors

A Dafny model of the parts of djangors whose behaviour spans more than one function or more than one
moment: payment recording under concurrent webhook deliveries, the two login throttles, the response
cache and its database backend, money texts, the changelist's date ranges and links, the text codecs
(CSV, cursors, reset tokens, XML and HTML escaping, the sitemap, migration files), the collection of
related objects before a deletion, and the bulk delete with its log. `dafny verify dfyconfig.toml`
checks everything.

How the model is laid out:

- The database is a set of tables with UNIQUE keys, changed by one statement at a time. Where calls
  overlap (`Payments`, `DatabaseCache`, `ResponseCache`) each statement or cache access is one step of
  a transition function, and a theorem speaks of the state after any sequence of steps. Statements may
  fail, before or after taking effect.
- Objects whose methods change their fields are classes (`RateLimitedBackend`,
  `PersistentLockoutBackend`, `InMemoryCache`, `CacheService`, `TransactionTable`, `Database`,
  `Connection`, `Visited`), proved against functions of the old state; the theorems are about those functions.
- The clock, the inner authentication backend, the inner service, the MAC, failing statements, the
  answers to counts and the effect of a deletion on other tables are inputs.
- Texts that the program treats as bytes (query strings, base64, cursors, tokens, file names) are
  sequences of characters below 256, one for each byte; `Utf8` says which of them are UTF-8. Other
  texts are sequences of Unicode characters.
- Integers have the width of the source's types where that can be seen: 64-bit amounts, the 32-bit
  failure counter, the parsers' ranges. Overflow wraps, as in a release build.

What the code does that its documentation does not lead one to expect, each with the exact condition:

- Printing and parsing an amount gives it back for every 64-bit amount except the minimum, whose
  absolute value does not exist (`Money.RoundTrip`).
- The database cache can lose a fresh set: a get that read the expired row deletes whatever is there
  when its delete arrives (`DatabaseCache.SetCanBeLost`). Over any run a key is answered as by an ideal
  cache throughout if and only if no such late delete of that key occurs (`DatabaseCache.AlikeExactly`),
  and at its end it is missed if and only if one came after the key's last set
  (`DatabaseCache.MissedExactly`), whatever happened to other keys.
- The account lockout bounds the wrong guesses that are stored. A guess whose row the database fails to
  write is not counted, and any number of those get through (`Lockout.UnstoredGuessesAreFree`). The
  bound on both together is attained (`Lockout.GuessBoundAttained`), and a bound without the second
  part holds of the runs that lose some number of writes if and only if that number is zero
  (`Lockout.PlainBoundExactly`).
- An export with a row without fields, or a header without columns, does not read back
  (`Csv.ExportReadsBack`).
- A migration's up section is read back exactly when no line of it reads as a marker and none ends in
  a carriage return (`Migrations.UpSectionReadsBack`). After number 9999 every run chooses the same
  file name (`Migrations.NameIsNew`, `Migrations.NumbersAdvance`).
- A confirmed bulk delete leaves a removed row without a log entry, while the log table exists, if and
  only if some turn that is reached deletes its row and loses the DELETE's reply or has its log entry
  refused; there is then one such row and the run ends there (`BulkDelete.Conservation`,
  `BulkDelete.LostEntryEndsRun`). A log error alone does not tell: an entry may be written and its reply
  lost (`BulkDelete.LogErrorExactly`).
- A day filter without a month is ignored: the range holds instants of other days
  (`DateHierarchy.DayAloneIsIgnored`), and a range is what the given fields ask for if and only if a
  month or no day is given (`DateHierarchy.SelectsExactly`). 31 December of the last representable year
  makes the date addition panic (`DateHierarchy.RangeAccepted`).
- A filter's All link is empty when nothing else is set, and an empty reference leads back to the page
  it is on: on `?is_active=true` it does not clear the filter. A filter link leads to the wanted view if
  and only if it is not empty or the filter is not set (`Changelist.FilterLinkChangesFilter`,
  `Changelist.AllLinkKeepsFilter`); the breadcrumb to all dates fails in the same way when only dates
  are set (`Changelist.AllDatesLinkClearsDates`).

## Model

| member | source | states |
|---|---|---|
| Payments.OneRowPerReference | crates/djangors-contrib-payments/src/transaction.rs:48-88 | After any interleaving of initiate calls and webhook deliveries, with statements failing anywhere, no reference has two rows. |
| Payments.ChargesNeverChange | crates/djangors-contrib-payments/src/transaction.rs:119-143 | From any reachable moment on, a row keeps its id, reference, provider, amount, currency, metadata and creation time, and a success stays one, stale whole-row writes included. |
| Payments.RowsAreInsertedCharges | crates/djangors-contrib-payments/src/transaction.rs:48-70 | A row that appears carries, column by column, what the call whose task took that step says, and is pending since that moment; the call is an initiate call or a genuine delivery. With the above, a row always records the first insert. |
| Payments.AnsweredDeliveryIsSuccess | crates/djangors-contrib-payments/src/transaction.rs:167-215 | A delivery answered with a transaction is genuine and leaves that row a success for good, with the reference the delivery named. |
| Payments.OnlyGenuineErrors | crates/djangors-contrib-payments/src/transaction.rs:187-215 | In any run, a finished call that met no refused or lost statement is answered with a transaction if and only if it is genuine, and else with the reason that applies; the errors for a vanished or missing row cannot occur. |
| Payments.AdmitExactly | crates/djangors-contrib-payments/src/transaction.rs:173-185 | The checks let a delivery through if and only if it is genuine: good signature, body that parses, and for Paystack event charge.success with status success, for Bachs type collection.succeeded with a reference or checkout id, a currency and an amount that is well formed and fits. The charge's columns and the reason of each refusal are stated one by one. |
| Payments.AnswersAgree | crates/djangors-contrib-payments/src/transaction.rs:48-88 | Any two calls answered for one reference, however far apart, name the same row and charge. |
| Payments.RankFalls | crates/djangors-contrib-payments/src/transaction.rs:187-215 | Each statement a task runs brings it nearer its end, whatever runs in between. |
| Payments.AdmittedDeliverySucceeds | crates/djangors-contrib-payments/src/bachs.rs:484-546 | A genuine delivery that runs five statements has finished, and if none was refused or lost its reference is a stored success. |
| Payments.NextKeeps | crates/djangors-contrib-payments/src/transaction.rs:119-143 | The invariant, which says for every program counter what the table must hold, survives every step. |
| Payments.TransactionTable.RecordChargeInitiated | crates/djangors-contrib-payments/src/transaction.rs:48-88 | Alone, an insert adds a row with the charge's columns, pending since now, and on a known reference changes nothing and returns the stored row. |
| Payments.TransactionTable.MarkTransactionStatus | crates/djangors-contrib-payments/src/transaction.rs:119-143 | Alone, it changes status, time and given metadata of the reference's row and nothing else, and reports an unknown reference. |
| Payments.TransactionTable.HandleDelivery | crates/djangors-contrib-payments/src/bachs.rs:484-546 | Alone, a delivery is answered with a transaction if and only if it is genuine; then one row is a success: the stored row of its reference, otherwise unchanged, or a new one with the event's own reference, amount, provider and currency. A refused one changes nothing and names the reason. |
| Payments.KnownReferenceAlone | crates/djangors-contrib-payments/src/transaction.rs:187-197 | The steps of a delivery's task, run without interruption on a known reference, answer and store what the sequential method is stated to. |
| Payments.NewReferenceAlone | crates/djangors-contrib-payments/src/transaction.rs:198-215 | The same for a new reference. |
| RateLimiter.RateLimitedBackend.Authenticate | crates/djangors-auth/src/lib.rs:189-218 | With clock readings in order, an attempt is admitted if and only if fewer than the limit of the history's admissions of that username lie in the window that ends now; the new list is the pruned one, with this admission. |
| RateLimiter.RetainExactly | crates/djangors-auth/src/lib.rs:199-199 | Whatever the clock did, pruning keeps an admission exactly if it is less than one window old or lies ahead of the clock. |
| RateLimiter.KeptSuffices | crates/djangors-auth/src/lib.rs:199-199 | Pruning the list kept at the last attempt is as good as pruning the whole history. |
| RateLimiter.AttemptKeeps | crates/djangors-auth/src/lib.rs:195-209 | One attempt keeps every username's list in agreement with the history. |
| RateLimiter.WindowBound | crates/djangors-auth/src/lib.rs:195-209 | No stretch of time one window long holds more than the limit of admissions for a username. |
| RateLimiter.UsernamesIndependent | crates/djangors-auth/src/lib.rs:196-199 | What a username is answered depends on its own requests alone. |
| Lockout.FoldMatches | crates/djangors-auth/src/lib.rs:294-371 | After any history the stored row is a closed form of the failures that count since the last success. |
| Lockout.RowShape | crates/djangors-auth/src/lib.rs:326-363 | After any history: without a lock the counter is from 1 to below the limit; with one it is at the limit and the lock ends one duration after the last counted failure; the streak's start is dated right. |
| Lockout.WhatCounts | crates/djangors-auth/src/lib.rs:315-368 | A success clears the row; backend errors, failed reads and attempts turned away change nothing; only wrong credentials that reach the backend count; a failed write leaves the row as it was or as it would have become. |
| Lockout.LockShutsOut | crates/djangors-auth/src/lib.rs:302-311 | While a lock lasts nothing reaches the inner backend and nothing changes, however many attempts are made. |
| Lockout.LockingFailureShutsOut | crates/djangors-auth/src/lib.rs:329-335 | After a stored failure that locks at t, nothing reaches the inner backend before t plus the duration. |
| Lockout.GuessBound | crates/djangors-auth/src/lib.rs:294-371 | A success-free run of elapsed time T lets through at most max(1, limit) * (T div duration + 1) wrong guesses, and those the database failed to store, after any history. |
| Lockout.NothingUnstored | crates/djangors-auth/src/lib.rs:328-363 | With a database that works there are none of those. |
| Lockout.UnstoredGuessesAreFree | crates/djangors-auth/src/lib.rs:328-363 | Any number of guesses whose writes fail reach the inner backend, at one moment and with no lock. |
| Lockout.GuessBoundAttained | crates/djangors-auth/src/lib.rs:294-371 | For any number of locks and of lost writes some run lets exactly as many guesses through as the bound says. |
| Lockout.PlainBoundExactly | crates/djangors-auth/src/lib.rs:294-371 | Without its second part the bound holds of all runs that lose a number of writes if and only if that number is zero. |
| Lockout.PersistentLockoutBackend.Authenticate | crates/djangors-auth/src/lib.rs:288-371 | The method keeps each username's row in step with its own history and answers what the history calls for, failing reads and writes included; a lock that has not run out is answered with the whole seconds left. |
| ResponseCache.KeysDiffer | crates/djangors-cache/src/lib.rs:402-402 | Different pairs of path and query-or-empty never share a key. |
| ResponseCache.StalenessBound | crates/djangors-cache/src/lib.rs:394-419 | In every run of any stack of layers, an answer is the handler's own to the same request, made while it was served or less than the sum of the ttls (and storing lags) earlier. |
| ResponseCache.BoundIsSum | crates/djangors-cache/src/lib.rs:394-419 | The bound is the sum of the ttls of the layers plus one lag for each. |
| ResponseCache.NoCookiesStored | crates/djangors-cache/src/lib.rs:408-416 | No cache ever holds a response with a header named set-cookie, or one the handler did not opt in. |
| ResponseCache.CacheService.Call | crates/djangors-cache/src/lib.rs:394-419 | One request against one layer: an unexpired entry for its path and query-or-empty is answered and the cache left alone. Else the inner answer goes out, and if it is an opted-in answer without cookies to a GET, from then on exactly the requests with that path and query are answered with it until one ttl later; otherwise the cache is left as it was. |
| ResponseCache.AskStep | crates/djangors-cache/src/lib.rs:402-408 | In any state a lookup answers with an unexpired entry, goes inward if there is none or the backend fails or the request is no GET, and changes no cache; past the last layer the handler answers. |
| ResponseCache.CacheChanges | crates/djangors-cache/src/lib.rs:408-416 | In any state a cache changes by evictions and by successful stores of opted-in answers without cookies to GETs alone, and a store changes what its own path and query are answered and nothing else. |
| ResponseCache.StoredIsAnswered | crates/djangors-cache/src/lib.rs:402-416 | In any run, once a layer has stored an answer, each GET with the same path and query that looks there before the ttl is over gets it and leaves the caches alone, unless the entry was evicted or stored anew in between. |
| ResponseCache.RankFalls | crates/djangors-cache/src/lib.rs:394-419 | Whatever runs in between, a request is answered after at most two accesses to each layer and one to the handler. |
| ResponseCache.OneRequestIsCall | crates/djangors-cache/src/lib.rs:394-419 | The steps of one uninterrupted request through one layer answer and store what that call does. |
| CacheStore.InMemoryCache.Get | crates/djangors-cache/src/lib.rs:134-145 | Returns the entry exactly while it has not expired. |
| CacheStore.InMemoryCache.Set | crates/djangors-cache/src/lib.rs:146-162 | From then on the key is answered with the value until one ttl from now, and every other key as before. |
| CacheStore.InMemoryCache.Delete | crates/djangors-cache/src/lib.rs:163-166 | From then on the key is not answered, and every other key is as before. |
| DatabaseCache.TableIsSubmap | crates/djangors-cache/src/lib.rs:196-264 | Whatever gets, sets and deletes interleave, the table holds nothing that an ideal cache does not. |
| DatabaseCache.ReadWasIdeal | crates/djangors-cache/src/lib.rs:196-213 | The row a get holds was, at a moment since it began, the latest set for its key. |
| DatabaseCache.HitsAreGenuine | crates/djangors-cache/src/lib.rs:214-216 | At a moment when the get already held its row, a hit was the ideal cache's value, and it had not expired when the get looked at the clock. |
| DatabaseCache.AnsweredAsRead | crates/djangors-cache/src/lib.rs:203-220 | In any run a finished get that did not fail read the row and hit, with that row, if and only if there was one whose expiry is none or later than the get's clock reading; it missed if and only if there was none or it had expired. |
| DatabaseCache.GetsHitOrMiss | crates/djangors-cache/src/lib.rs:196-220 | A get that meets no failing statement ends in no other way. |
| DatabaseCache.OnlyLateExpiryParts | crates/djangors-cache/src/lib.rs:214-219 | From any state in which a key is answered alike, whatever other keys do, a step parts its answers if and only if it is an expiry delete that finds a live entry of it. |
| DatabaseCache.AlikeExactly | crates/djangors-cache/src/lib.rs:196-264 | Over any run a key is answered as by the ideal cache at every moment if and only if no late expiry delete of it occurs. |
| DatabaseCache.MissedExactly | crates/djangors-cache/src/lib.rs:196-264 | After any run the table misses a key the ideal cache answers if and only if a late expiry delete of it came after its last set or delete. |
| DatabaseCache.SetCanBeLost | crates/djangors-cache/src/lib.rs:214-219 | That can happen: a set between the read and the delete of a get on an expired row is lost. |
| DatabaseCache.SequentialAgrees | crates/djangors-cache/src/lib.rs:196-264 | When calls do not overlap, table and ideal cache answer alike for every key. |
| DatabaseCache.SequentialAnswers | crates/djangors-cache/src/lib.rs:196-264 | When calls do not overlap, sets and deletes change the ideal cache as they say, with the expiry one ttl after the set began, and a get hits with a value if and only if the ideal cache has that value for the key, unexpired at the get's clock reading, and else misses. |
| Money.ParseExact | crates/djangors-contrib-payments/src/bachs.rs:187-264 | A text is accepted as v exactly when it is an optional minus, digits and at most as many fraction digits as the currency has, worth v in minor units, with the absolute value of v at most the 64-bit maximum. |
| Money.ParseWellFormed | crates/djangors-contrib-payments/src/bachs.rs:240-264 | On every well-formed text the result is the exact value or an error: no text overflows. |
| Money.RoundTrip | crates/djangors-contrib-payments/src/bachs.rs:169-264 | Parsing a printed amount gives it back if and only if it is not the 64-bit minimum, for every currency. |
| Money.WholeCurrencies | crates/djangors-contrib-payments/src/bachs.rs:159-184 | In each of the sixteen currencies without a minor unit 1234 prints as 1234 and parses back, and a fraction is refused. |
| Money.DinarCurrencies | crates/djangors-contrib-payments/src/bachs.rs:159-184 | In each of the seven with a thousand to the unit it prints as 1.234 and parses back, and a fourth digit is refused. |
| Money.CentCurrencies | crates/djangors-contrib-payments/src/bachs.rs:159-184 | With any other code of three capital letters it prints as 12.34 and parses back, and a third digit is refused. |
| Money.CaseIgnored | crates/djangors-contrib-payments/src/bachs.rs:160-160 | A three-letter currency code counts the same in small letters as in capitals. |
| Calendar.NumberOfDateOf | crates/djangors-admin/src/changelist.rs:189-227 | The Gregorian day count agrees with walking the calendar one day at a time, in both directions from 1970. |
| Calendar.NumberOrder | crates/djangors-admin/src/changelist.rs:189-227 | The day count orders dates as their fields do. |
| Calendar.DateOfNumber | crates/djangors-admin/src/changelist.rs:189-227 | The walk finds every valid date again from its count. |
| DateHierarchy.RangeExact | crates/djangors-admin/src/changelist.rs:180-232 | An instant is in the half-open range exactly when its calendar date has the requested year, the requested month, and with a month the requested day. |
| DateHierarchy.SelectsExactly | crates/djangors-admin/src/changelist.rs:186-227 | A range holds exactly the instants with the given year, month and day if and only if a month or no day is given. |
| DateHierarchy.DayAloneIsIgnored | crates/djangors-admin/src/changelist.rs:216-226 | For a day without a month, an instant in the range whose day is another. |
| DateHierarchy.RangeAccepted | crates/djangors-admin/src/changelist.rs:186-227 | Which requests get a range, and the one that overflows. |
| DateHierarchy.MonthsTileYear | crates/djangors-admin/src/changelist.rs:205-227 | Month ranges meet and together are the year range. |
| DateHierarchy.DaysTileMonth | crates/djangors-admin/src/changelist.rs:196-212 | Day ranges meet and together are the month range. |
| Csv.RowsToCsv | crates/djangors-admin/src/changelist.rs:41-61 | The loop writes the header and each row as one record. |
| Csv.QuotedExactly | crates/djangors-admin/src/changelist.rs:33-39 | A field is written in quotes if and only if it holds a comma, a quote, a carriage return or a line feed. |
| Csv.ExportReadsBack | crates/djangors-admin/src/changelist.rs:33-61 | A reader for section 2 of RFC 4180 gets the header and rows back, whatever the fields contain, if and only if each record has a field. |
| QueryString.DecodeEncode | crates/djangors-admin/src/changelist.rs:15-17 | Percent-decoding undoes percent-encoding, byte for byte. |
| QueryString.EncodedBytes | crates/djangors-admin/src/changelist.rs:15-17 | ASCII digits and letters are written as they are and every other byte as a percent sign and two capital hex digits. |
| QueryString.LinkReadsBack | crates/djangors-core/src/request.rs:102-124 | A request to a path with a built link sees exactly the pairs that had a value, a later one for the same key winning; a link that stands alone does so if and only if some pair has a value or the page has no parameters, and else keeps the page's. |
| QueryString.KeyExact | crates/djangors-admin/src/changelist.rs:21-31 | A link carries a key if and only if it is not empty, holds no ampersand, equals or number sign and decodes to itself; field names do. |
| Changelist.CollectFilters | crates/djangors-admin/src/changelist.rs:234-244 | The loop keeps, in order, the configured fields whose parameter is exactly true or false. |
| Changelist.BuildPagePairs | crates/djangors-admin/src/changelist.rs:506-518 | The pushed pairs of a page link are page, order, search, every filter and the three date parts. |
| Changelist.PageLinkKeepsView | crates/djangors-admin/src/changelist.rs:506-532 | Following the previous or next link leads to the same order, search, filters and dates at the page it names. |
| Changelist.PageOfNumber | crates/djangors-admin/src/changelist.rs:418-426 | The page is the first without a parameter, the number given from 1 up, and an error below. |
| Changelist.ExportLinkKeepsView | crates/djangors-admin/src/changelist.rs:736-743 | The export path with its link asks for the view it came from. |
| Changelist.HeaderLinkChangesOrder | crates/djangors-admin/src/changelist.rs:444-459 | Following a column header's link orders by the column, or, if that is the order already, by the column the other way, and changes nothing else. |
| Changelist.FilterLinkChangesFilter | crates/djangors-admin/src/changelist.rs:585-627 | Following a filter's link sets or clears that filter and nothing else if and only if the link is not the empty All link of a filter that is set. |
| Changelist.AllLinkKeepsFilter | crates/djangors-admin/src/changelist.rs:588-597 | On a page with one filter and nothing else the All link is empty and following it leaves the filter set. |
| Changelist.AllDatesLinkClearsDates | crates/djangors-admin/src/changelist.rs:640-644 | Following the breadcrumb to all dates clears the dates and nothing else if and only if something else is set or no date is. |
| Escaping.FivePassesAreOne | crates/djangors-contrib-sitemaps/src/lib.rs:9-16 | Five whole-text replacements equal one substitution for each character. |
| Escaping.UnescapeUndoes | crates/djangors-core/src/lib.rs:82-96 | One left-to-right unescape restores the text, for the XML and the HTML form. |
| Escaping.NoRawSpecials | crates/djangors-core/src/lib.rs:82-96 | No raw special character is left, and every ampersand starts an entity. |
| Escaping.HtmlEscape | crates/djangors-core/src/lib.rs:82-96 | The single-pass loop computes the substitution with the sixth entity. |
| Escaping.XmlRoundTrip | crates/djangors-contrib-sitemaps/src/lib.rs:9-16 | Unescaping an escaped sitemap text gives the text. |
| Sitemap.RenderSitemap | crates/djangors-contrib-sitemaps/src/lib.rs:56-84 | The loop appends each entry's elements in order between the opening and closing tags. |
| Sitemap.DocumentReadsBack | crates/djangors-contrib-sitemaps/src/lib.rs:56-84 | An element-by-element reader gets exactly the entries back, whatever their locations and frequencies contain. |
| Base64.DecodeExact | crates/djangors-core/src/pagination.rs:20-29 | The decoder of section 4 of RFC 4648 accepts exactly what the encoder writes, and reads it back. |
| Base64.NoDots | crates/djangors-auth/src/lib.rs:754-760 | Encoded text never holds the dot that separates a token's parts. |
| Cursor.CursorRoundTrip | crates/djangors-core/src/pagination.rs:20-34 | A cursor decodes to the key and value it was made from, pipes included; only an empty value comes back as none. |
| ResetToken.TokenParts | crates/djangors-auth/src/lib.rs:716-748 | A generated token splits into exactly its three encoded parts. |
| ResetToken.MessageUnambiguous | crates/djangors-auth/src/lib.rs:735-740 | A signed message determines id, expiry and hash prefix, dots in the prefix included. |
| ResetToken.VerifyGenerated | crates/djangors-auth/src/lib.rs:754-824 | With no assumption on the MAC: when a generated token verifies. |
| ResetToken.TokenExact | crates/djangors-auth/src/lib.rs:716-824 | With an injective MAC, a token verifies exactly for the same user id, before its expiry second, with the same first 30 bytes of the hash. |
| ResetToken.MacIsNotTransferable | crates/djangors-auth/src/lib.rs:801-824 | A MAC is accepted only beside the id, expiry and prefix it was issued for, in any token whatever. |
| Migrations.ReadSectionUp | crates/djangors-cli/src/commands.rs:641-657 | The scanning loop with its flag returns the lines between the markers, joined. |
| Migrations.TrimExactly | crates/djangors-cli/src/commands.rs:645-650 | A trimmed line is the marker if and only if the line is the marker with nothing but whitespace around it. |
| Migrations.UpSectionReadsBack | crates/djangors-cli/src/commands.rs:1041-1041 | The up section of a written file is the up SQL if and only if no line of it is a marker with nothing but whitespace around it, and none ends in a carriage return. |
| Migrations.PrefixExactly | crates/djangors-cli/src/commands.rs:1032-1037 | A file name has a number if and only if it is UTF-8 and its first four bytes are a numeral, with or without a plus sign. |
| Migrations.NumberExceedsAll | crates/djangors-cli/src/commands.rs:1029-1040 | The number chosen is above every number in use, by one above the largest, and from 1 to 10000; names that are not UTF-8 are skipped. |
| Migrations.NumberReadsBack | crates/djangors-cli/src/commands.rs:1042-1042 | A written name carries its number in its first four bytes, up to 9999. |
| Migrations.NameIsNew | crates/djangors-cli/src/commands.rs:1029-1042 | The name is not taken if and only if the largest number is below 9999 or the overflow name is free. |
| Migrations.NumbersAdvance | crates/djangors-cli/src/commands.rs:1029-1042 | The next run chooses the next number exactly while the largest is below 9999, and then the same again. |
| RelatedObjects.CollectWithDepth | crates/djangors-admin/src/delete_view.rs:46-107 | The nested loops with the shared visited set compute the specified tree, or the first error, on any foreign-key graph, every count being answered at its own moment. |
| RelatedObjects.CollectRelation | crates/djangors-admin/src/delete_view.rs:57-102 | The loops' body: one relation adds nothing, its summary with what is under it, or the error. |
| RelatedObjects.CollectRelatedObjects | crates/djangors-admin/src/delete_view.rs:30-44 | Collection answers the specified tree from nothing visited; with NestedExactly, two levels below the first. |
| RelatedObjects.CollectShape | crates/djangors-admin/src/delete_view.rs:82-101 | At most one level more than the depth, positive counts only, and a visited set that only grows. |
| RelatedObjects.ExpandedOnce | crates/djangors-admin/src/delete_view.rs:84-94 | Across the whole tree a table is expanded at most once. |
| RelatedObjects.NodesPaidFor | crates/djangors-admin/src/delete_view.rs:54-105 | A tree has no more nodes than relations to its target plus relations to newly visited tables. |
| RelatedObjects.TreeIsBounded | crates/djangors-admin/src/delete_view.rs:30-107 | The tree shown has at most three levels, positive counts, one expansion for each table, and at most twice as many nodes as there are registered relations, while the tables change. |
| RelatedObjects.ListsAreComplete | crates/djangors-admin/src/delete_view.rs:56-101 | Each relation to the target is asked once, in order, and has a line exactly if it then held rows, whatever was visited before. |
| RelatedObjects.NestedAreComplete | crates/djangors-admin/src/delete_view.rs:84-94 | At any depth, under a node on a level that is expanded is the complete list for its table, unless the table was visited before, and under any other node nothing; the tables visited are those on these levels. |
| RelatedObjects.NestedExactly | crates/djangors-admin/src/delete_view.rs:30-94 | The tables visited are exactly those on the first two levels of the tree shown. A node there has the complete list for its table under it if no earlier node on these levels is of that table, and else nothing; a node on the third level has nothing. |
| RelatedObjects.EmptyMeansFree | crates/djangors-admin/src/delete_view.rs:82-83 | A complete list that is empty means that each relation to the table was asked and found to hold no rows. |
| RelatedObjects.StableLists | crates/djangors-admin/src/delete_view.rs:56-101 | While nothing changes, a list is exactly the relations that hold rows. |
| RelatedObjects.ProtectedByAnswers | crates/djangors-admin/src/delete_view.rs:366-368 | With the tables changing, a row counts as protected only if a protecting relation held rows when asked, and as free only if each was found to hold none. |
| RelatedObjects.ProtectedExactly | crates/djangors-admin/src/delete_view.rs:366-368 | While nothing changes, a row counts as protected exactly when rows refer to it through a protecting relation to its table. |
| RelatedObjects.FailuresAreCounts | crates/djangors-admin/src/delete_view.rs:66-81 | Collection fails only on a failing count other than a missing table. |
| RelatedObjects.DoneMeansNoFailure | crates/djangors-admin/src/delete_view.rs:66-81 | A finished collection has asked each relation to its target at a moment that did not fail. |
| BulkDelete.Database.DeleteRow | crates/djangors-admin/src/model_admin.rs:632-654 | Select under the tenant filter, then delete: the row goes, or the stated error or refusal leaves the tables as they were, but for a DELETE whose reply is lost. |
| BulkDelete.Database.AppendLog | crates/djangors-admin/src/log.rs:78-114 | Appends the deletion entry; a missing log table is no failure, and an INSERT may fail before or after it takes effect. |
| BulkDelete.Database.DeleteSelected | crates/djangors-admin/src/delete_view.rs:358-385 | The confirmed loop runs the turns in order up to the first error. |
| BulkDelete.TurnEffect | crates/djangors-admin/src/delete_view.rs:363-384 | A turn removes the row exactly when it is there, in the tenant, not held and the DELETE takes effect, with an entry, whose columns are stated, unless a reply is lost or the entry refused; otherwise it changes nothing. |
| BulkDelete.Conservation | crates/djangors-admin/src/delete_view.rs:371-383 | Rows plus deletion entries are conserved over any selection list: each removed row has exactly one entry, by this user, but for one row if some reached turn deletes its row and loses the DELETE's reply or has its entry refused. |
| BulkDelete.LostEntryEndsRun | crates/djangors-admin/src/delete_view.rs:371-383 | Such a turn ends the run in an error. |
| BulkDelete.LogErrorExactly | crates/djangors-admin/src/delete_view.rs:371-383 | The run ends in a log error if and only if some turn is reached, deletes its row, learns so, and its log write fails, before or after taking effect. |
| BulkDelete.NoLogStaysNone | crates/djangors-admin/src/log.rs:104-111 | Without a log table rows go without entries in any run. |
| BulkDelete.RemovedExactly | crates/djangors-admin/src/delete_view.rs:362-384 | A row goes if and only if some turn of its key is reached and finds that it can. |
| BulkDelete.RowsOnlyGo | crates/djangors-admin/src/model_admin.rs:649-653 | No row appears and no remaining row changes. |
| BulkDelete.OthersUntouched | crates/djangors-admin/src/model_admin.rs:278-298 | Rows that were not selected, and rows whose tenant column is missing or differs, stay as they are. |
| BulkDelete.HeldRowSurvives | crates/djangors-admin/src/delete_view.rs:366-370 | A row that a protecting relation holds at each of its turns stays as it is. |
| BulkDelete.FaultlessRunFinishes | crates/djangors-admin/src/delete_view.rs:358-385 | Without failing statements, on a present table and a known tenant column, the run reaches its end. |
| BulkDelete.FaultlessDeletes | crates/djangors-admin/src/delete_view.rs:358-385 | Then a row goes if and only if it is in the tenant and some turn of its key finds it not held. |
| Decimal.ParsePrinted | crates/djangors-admin/src/changelist.rs:157-177 | Parsing a printed integer gives it back, for every integer type that holds it. |
| Decimal.ParseIntExact | crates/djangors-admin/src/changelist.rs:157-177 | A text parses as a number if and only if it is an optional sign, a minus only for signed types, and digits, worth that number, within the type's range. |
| Utf8.ValidExactly | crates/djangors-core/src/pagination.rs:31-31 | The byte texts accepted as UTF-8 are exactly the encodings of sequences of code points other than surrogates. |

## Left out

- HTTP, routing, templates, sessions, permission checks, signature checking and JSON: a delivery is
  whether its signature is good and what its body parses to; a cached response survives serialization.
- Other writers of transactions: refunds, failures and metadata updates go through the same
  `mark_transaction_status`, and a stale whole-row write of theirs can restore older values of status
  and metadata. With webhook deliveries and initiate calls alone, metadata never changes either.
- Payments.TransactionTable.MarkTransactionStatus: metadata is a text as stored; turning JSON into it is not modelled.
- Payments.AdmitExactly: says that an amount is refused, not with which message.
- Payments.AdmittedDeliverySucceeds: fairness is an assumption, that the delivery gets to run five
  statements. Column widths are not modelled: a statement the database always refuses, such as an
  insert of a currency longer than its column, is a failing one.
- RateLimiter.RateLimitedBackend.Authenticate: counts by the history where clock readings do not go back,
  and else by the list as it is.
- RateLimiter.WindowBound: is about clock readings that do not go back for a username in the order the
  lock is taken; the source reads the clock before it takes the lock, so readings may arrive out of order.
- Lockout.PersistentLockoutBackend.Authenticate: takes the calls for one username one at a time; the
  source reads and writes the row without a lock. The row's surrogate id is not modelled.
- Lockout.GuessBound: assumes attempts in clock order.
- ResponseCache.StoredIsAnswered: an entry that was evicted or stored anew in between is not promised.
- ResponseCache.StalenessBound: the layers have caches of their own, and time passes between receiving
  an answer and storing it, at most a lag that enters the bound. Eviction drops any entry at any time.
- The Redis cache, `get_or_set` and template fragments.
- DatabaseCache.SequentialAgrees: each call runs without interruption, with time passing inside it.
- DateHierarchy.RangeExact: instants are nanoseconds of a count without leap seconds; the range of
  representable years is that of the date library.
- Changelist.PageLinkKeepsView: filter fields must be identifiers other than page, o, q, year, month
  and day, and parameters must be UTF-8 texts, as parsed requests have them.
- The search box's hidden inputs, and the date hierarchy's drill-down links and other breadcrumbs,
  which always say something.
- Csv.ExportReadsBack: the reader takes any character but comma, quote, CR and LF as text data, where
  RFC 4180 lists the ASCII ones, and reads a last record without a line break.
- Sitemap.DocumentReadsBack: time stamps and priorities arrive formatted, with neither angle bracket
  nor ampersand in them; the declaration before the first URL is any text. The reader is this
  project's: it takes control characters that XML forbids and leaves line ends as they are, where an
  XML processor rejects the ones and normalises the others.
- ResetToken.TokenExact: the MAC is an injective function of the message; keyed hashing itself is not
  modelled. A hash whose 30th byte is inside a character makes the source panic and is excluded.
- Migrations.ReadSectionUp: the file is text that has been read; running the SQL is not modelled.
- RelatedObjects.CollectWithDepth: the meaning of nested counts is not claimed, since the source counts
  them with the root's key. A summary holds its model, where the source copies the model's two labels.
- BulkDelete.Database.DeleteSelected: no other user changes the tables while one turn asks and deletes.
- BulkDelete.Conservation: a deletion may change other tables in any way but not its own, so cascades
  into the same table are excluded; the log is a table apart from the one deleted from.
- Custom bulk actions, the confirmation page and the single-object delete route.
- Pagination arithmetic, status mapping tables and header builders.
