# Cloudstore core, modelled in Dafny

Cloudstore is a Django book-sharing site (the `blog` app). This project models the parts of it
that are plain sequential logic once the database, the HTTP layer and the external libraries are
taken out:

- **Book pagination and text extraction** (`Book.save_pages_from_file`, `Book.extract_text_from_file`
  and its helpers, and the PDF fallback cascade `extract_pdf_text_advanced`) — modules
  `Pagination` and `Cascade`.
- **In-book search** (`ai_search_books`): the search-term list, the overlapping occurrence scan,
  de-duplication by (book, page, index), snippet windows with a `<mark>` highlight, sorting and the
  cap of 20 results — module `Search`. Three small pieces of the same views file are also modelled:
  - the RTF export escaper (`Rtf`);
  - the registration validator (`Registration`);
  - monotone reading progress (`Reading`).
- **Subscriptions, promo codes, referrals, badges and statistics** (`models_subscription.py`,
  `views_subscription.py`) — module `Subscription`. The Payme checkout URL (UTF-8 plus Base64 of the
  payload) is in module `Payme`.
- **Engagement**: streaks and their multiplier, the daily bonus, the weighted prize wheel, daily tasks
  (`models_engagement.py`, `views_engagement.py`) — module `Engagement`.
- **Messaging**: visibility flags, file extension and size unit, online status, typing, follow
  toggling, sending, deleting, editing and polling (`models_social.py`, `views_social.py`) — module
  `Social`. Rate limiting, client-IP parsing, upload validation and filename sanitising (`utils.py`)
  are in module `Uploads`.
- Shared string and number helpers (Python's `strip`, `lower`, `split`, `find`, `int()` and `str()`)
  are in modules `Text` and `Numerals`. `Option` and `Read` (a value or the exception a library
  raised) are in `Wrappers`.

Conventions used throughout:

- The clock is a parameter. `now` is a number of seconds and `today` a day number.
- Python's `timedelta.seconds` is `diff % 86400` and `timedelta.days` is `diff / 86400`. Both are
  Euclidean, which agrees with Python for every sign.
- Random draws are parameters: the wheel's `randint` result and the tasks `random.sample` picked.
- Library outputs are inputs:
  - pypdf's reading is a `PdfScan`: the page texts read (each `Option<string>`) and the exception
    raised by the next page, if any;
  - DOCX paragraphs are text plus a page-break flag;
  - each reader's outcome is `Read<T>`, i.e. `Raised(message)` or `Returned(value)`.
- Database rows are immutable records, and each operation returns the updated records.
- Prices are `real`. Streak multipliers are kept doubled (2, 3, 4, 6 for 1.0, 1.5, 2.0, 3.0) so that
  they stay integers.

## Model

| member | source | states |
|---|---|---|
| Text.Strip | blog/views_social.py:394 | `str.strip()`: the result is the input minus a maximal run of whitespace at each end; it is empty iff the input is all whitespace, and otherwise begins and ends with non-whitespace |
| Text.StripIdempotent | blog/views_social.py:394 | stripping twice is stripping once |
| Text.Split | blog/utils.py:63 | `str.split(c)`: at least one piece, no piece contains `c`, and joining the pieces with `c` gives back the input |
| Text.LastPieceSuffix | blog/models_social.py:179 | the text after the last separator: it ends the input, and is the whole input or follows a separator (and LastPiece holds no separator) |
| Text.SuffixAfterLastUnique | blog/models_social.py:179 | only one suffix has those properties, so they pin the extension down |
| Text.LastPieceIsLastSplit | blog/models_social.py:179 | that suffix is exactly the last piece of `split(c)` |
| Text.ExtOf | blog/models_social.py:179 | `name.split('.')[-1].lower()`: character by character the lower-cased end of the name, holding no dot, and either the whole name or preceded by a dot |
| Text.ExtOfIsLastSplit | blog/models_social.py:179 | the extension is the lower-cased last piece of `name.split('.')` |
| Text.LastPieceWithout | blog/models_social.py:179 | a name without a dot is its own last piece (the whole name is the extension) |
| Text.ExtOfPrefixed | blog/models_social.py:179 | putting a directory in front of a name that contains a dot does not change its extension |
| Text.Find | blog/views.py:117 | `str.find(sub, start)`: -1, or an index at or after `start` where `sub` occurs |
| Text.FindLeast | blog/views.py:117 | `find` returns the first occurrence: any occurrence at or after `start` means the result is not -1 and not beyond it |
| Numerals.ParseInt | blog/views_social.py:575-578 | `int(s)`: a value is produced iff the stripped input is digits, or a sign followed by digits |
| Numerals.ParseIntAccepts | blog/views_social.py:575-578 | whitespace, an optional sign and digits parse to the signed decimal value (`int(" +07 ") == 7`) |
| Numerals.ParseIntValue | blog/views_social.py:575-578 | an accepted input's value is the decimal value of its digits, negated after a minus sign |
| Numerals.ParseIntOfIntToString | blog/views_social.py:575-578 | `int(str(i)) == i` for every integer |
| Numerals.NatToStringInjective | blog/utils.py:35 | distinct user ids give distinct decimal renderings |
| Pagination.KindOf | blog/models_new.py:81-93 | the format is chosen by the lower-cased name's suffix: PDF iff `.pdf`, DOCX iff `.docx`, TXT iff `.txt` |
| Pagination.NumberPages | blog/models_new.py:89-91 | pages are numbered 1..N in order and carry the given texts |
| Pagination.PdfPages | blog/models_new.py:85-91 | one page per reader page, numbered i+1; a page with no text layer is still stored, with empty text |
| Pagination.GroupsFromCount | blog/models_new.py:115-133 | the number of DOCX pages is one plus the number of break-flagged paragraphs that follow the first |
| Pagination.GroupsFromFlatten | blog/models_new.py:102-133 | concatenating the pages' paragraph lists gives back the paragraphs, in order, none dropped or repeated |
| Pagination.GroupsFromNonEmpty | blog/models_new.py:115-128 | no DOCX page is empty |
| Pagination.Groups | blog/models_new.py:99-133 | there are no pages iff there are no paragraphs |
| Pagination.DocxPartition | blog/models_new.py:99-133 | the DOCX pages partition the paragraph list exactly, and every page is non-empty |
| Pagination.DocxPageCount | blog/models_new.py:99-133 | N = 0 with no paragraphs, otherwise 1 + the break-flagged paragraphs after the first; numbers are contiguous 1..N |
| Pagination.DocxPageStarts | blog/models_new.py:115-125 | a page begins at paragraph 0 and at every later break-flagged paragraph, and nowhere else (a flag on the first paragraph opens no extra page, because the current page is still empty) |
| Pagination.PaginateDocx | blog/models_new.py:99-133 | the loop with its running page buffer computes exactly the functional pagination |
| Pagination.GroupsFromStep | blog/models_new.py:115-125 | one loop step: a flagged paragraph flushes the current page and starts a new one, any other is appended |
| Pagination.DerivePages | blog/models_new.py:85-139 | pages are numbered contiguously; a PDF stores one page per page read, and a page that raises keeps the pages before it; DOCX and TXT store nothing when their reader raises; an unsupported format stores nothing and raises nothing |
| Pagination.SavePagesFromFile | blog/models_new.py:75-139 | no file (NULL, or a cleared name `''`, which is false): nothing changes; otherwise old pages are replaced by contiguous new ones; after an exception a DOCX or TXT book has no pages, and a PDF book has the pages read before the failing one |
| Pagination.SavedUnsupported | blog/models_new.py:78-83 | for a non-empty file name, an unsupported extension (e.g. `.doc`) ends with zero pages, because deletion comes first |
| Pagination.SavedPdf | blog/models_new.py:85-91 | a PDF gives exactly as many pages as were read, page i+1 holding page i's text or "", and raises what the reader raised next |
| Pagination.PdfRaiseKeepsPrefix | blog/models_new.py:83-91 | when page k raises, the book keeps exactly the first k pages a clean read would store, and the exception propagates |
| Pagination.SavedTxt | blog/models_new.py:135-139 | a text file becomes a single page 1 holding the whole file |
| Pagination.ReplaceSemantics | blog/models_new.py:78-83 | for a non-empty file name, the result does not depend on the old pages, so saving twice is saving once |
| Pagination.ExtractTextFromFile | blog/models_new.py:149-193 | "" without a file (NULL or `''`) or for an unsupported format; a text file's content unchanged; PDF text comes back already stripped; a reader's exception becomes the error prefix plus its message, never a raise |
| Pagination.DocxTextMatchesPages | blog/models_new.py:181-188 | the DOCX full text is the stored pages' texts, each followed by a newline |
| Pagination.PdfTextMatchesPages | blog/models_new.py:170-179 | the PDF full text is the non-empty stored page texts, each followed by a newline, then stripped |
| Pagination.TxtTextMatchesPage | blog/models_new.py:190-193 | the TXT full text is the single stored page's text |
| Cascade.PypdfText | blog/views.py:287 | pypdf's join raises when any page has no text layer |
| Cascade.Accept | blog/views.py:268-269 | a reader's text is used iff it did not raise and has at least 50 characters after stripping; the stripped text is what is returned |
| Cascade.FirstAcceptedSome | blog/views.py:263-291 | some reader's text is used iff one of them is usable |
| Cascade.FirstAcceptedWins | blog/views.py:263-291 | the first usable reader wins, whatever the later ones return |
| Cascade.OcrPages | blog/views.py:300 | OCR covers at most the first five pages |
| Cascade.AccumulateOcr | blog/views.py:301-305 | the loop builds the concatenation of the per-page "--- Sahifa i ---" blocks |
| Cascade.OcrStage | blog/views.py:293-313 | a missing OCR library and any other OCR exception map to fixed strings |
| Cascade.ExtractPdfTextAdvanced | blog/views.py:258-315 | the first usable reader's text; failing that, the OCR outcome; failing that, the fixed final message |
| Cascade.FitzFirst | blog/views.py:263-269 | a usable PyMuPDF text is returned, stripped, before any other reader is consulted |
| Cascade.ReaderAnswer | blog/views.py:263-291 | the answer of a winning reader is its stripped text, at least 50 characters long |
| Cascade.OcrOnlyAsLastResort | blog/views.py:293-315 | when no reader is usable, the answer is decided by OCR alone |
| Cascade.OcrIgnoresLaterPages | blog/views.py:300 | pages after the fifth never affect the OCR outcome |
| Cascade.BlankScanAccepted | blog/views.py:303-308 | as written: a scan of two or more pages is always accepted, even when OCR recognised nothing |
| Cascade.OcrStageIntended | blog/views.py:293-313 | corrected: OCR output is accepted only when the recognised page text has at least 20 characters after stripping |
| Cascade.BlankScanRejectedIntended | blog/views.py:303-308 | corrected: a scan in which OCR recognised only whitespace is rejected |
| Cascade.ExtractPdfTextIntended | blog/views.py:258-315 | the cascade with the corrected OCR threshold |
| Search.AddKeywordsFresh | blog/views.py:97-101 | appending keywords keeps the list free of duplicates; every appended term is non-empty, longer than 2 and was absent |
| Search.AddKeywordsSound | blog/views.py:97-101 | every term in the result was already there or is a keyword |
| Search.AddKeywordsComplete | blog/views.py:97-101 | every keyword longer than 2 characters ends up in the list |
| Search.AddKeywordsInOrder | blog/views.py:97-101 | the loop appends exactly the fresh keywords in their given order: longer than 2 characters, not already a term, not equal to an earlier keyword |
| Search.FreshMembers | blog/views.py:99-101 | a long enough keyword is fresh iff it is among the keywords and not already a term |
| Search.TermListInOrder | blog/views.py:59-101 | the list is the differing correction and the query, or the query alone, followed by the fresh keywords in their given order, which decides what `search_terms[:5]` searches |
| Search.TermList | blog/views.py:59-101 | the query is in the list, which has no duplicates; the list starts with the query or with a differing correction followed by the query |
| Search.TermListMembers | blog/views.py:59-101 | a term is in the list iff it is the query, the correction, or a keyword longer than 2 characters |
| Search.SearchTerms | blog/views.py:59-101 | the lower-cased query is always searched, and no term is listed twice |
| Search.SearchedTerms | blog/views.py:110 | only the first five terms are searched |
| Search.Occurrences | blog/views.py:114-126 | the indices visited are genuine occurrences at or after the start, in increasing order |
| Search.OccurrencesComplete | blog/views.py:114-126 | every occurrence is visited, overlapping ones included, because the next search starts at idx+1 |
| Search.ScanOccurrences | blog/views.py:115-126 | the `while True` find loop visits exactly the occurrence list |
| Search.CandidatesComplete | blog/views.py:110-126 | every occurrence of every searched term in every page of every selected book is a candidate |
| Search.KeepFirst | blog/views.py:121-126 | after the `found_positions` filter, no two hits share a (book, page, index) key, and each kept hit is a candidate whose key was unseen |
| Search.KeepFirstComplete | blog/views.py:121-126 | every key that was unseen is represented in the kept hits |
| Search.Window | blog/views.py:128-129 | the snippet spans at most 150 characters before the match and 150 after, clipped to the text, and contains the match |
| Search.Highlight | blog/views.py:128-142 | the snippet is the window with `<mark>`/`</mark>` around exactly the matched characters, framed by "..." |
| Search.MarkedIsTerm | blog/views.py:130-135 | the marked text, lower-cased, is the search term |
| Search.HitOf | blog/views.py:138-146 | a hit records its book, page, position and term |
| Search.SortHits | blog/views.py:179 | sorting yields an ordered permutation of the hits |
| Search.SortStable | blog/views.py:179 | the sort is stable: hits with the same (title, page, position) keep their input order |
| Search.Insert | blog/views.py:179 | inserting into a sorted list keeps it sorted and adds exactly one element |
| Search.StrLessTotal | blog/views.py:179 | titles are totally ordered |
| Search.HitLeTotal | blog/views.py:179 | any two hits are comparable by the (title, page, position) key |
| Search.HitLeTrans | blog/views.py:179 | the key order is transitive, so with HitLeTotal it is a total preorder |
| Search.SortedEveryPair | blog/views.py:179 | in a sorted list every hit sorts no later than every hit after it |
| Search.AllHits | blog/views.py:110-179 | all kept hits, sorted |
| Search.AllHitsStable | blog/views.py:110-192 | hits that tie on the key come out in scan order, which decides which of them fall within the first 20 |
| Search.Cap | blog/views.py:192 | the first min(n, len) elements |
| Search.SelectBooks | blog/views.py:47-50 | a book is searched iff no author (or author 0) is given or it is by that author |
| Search.SearchInfo | blog/views.py:184-188 | search info is absent iff only one term was searched and no differing correction was made |
| Search.AiAnswer | blog/views.py:152-176 | an answer is reported only for a question with at least one hit |
| Search.FoundResponse | blog/views.py:178-198 | total counts every hit; the returned results are the first 20 of the sorted hits |
| Search.ResultsSorted | blog/views.py:179-196 | the returned results are sorted, never more than the total, and exactly 20 when there are at least 20 hits |
| Search.SearchBooks | blog/views.py:38-198 | a blank query is rejected; no selected book means "not found"; otherwise the response is the found response for the stripped query |
| Rtf.SourceText | blog/views.py:2222-2236 | txt gives the decoded text, doc/docx the paragraphs joined by newlines, pdf the page texts joined by newlines; a reader's exception gives the prefixed message; a pdf page without text gives the join's TypeError naming the first such page; an unknown extension gives the fixed message |
| Rtf.PdfNoneNamesFirst | blog/views.py:2231-2232 | whatever follows, the error names the index of the first text-less page |
| Rtf.PdfAllPagesJoin | blog/views.py:2231-2232 | with text on every page, the export is exactly those texts joined by newlines |
| Rtf.ReplaceCharAppend | blog/views.py:2239 | escaping distributes over concatenation |
| Rtf.EscapeLineIsEscape | blog/views.py:2239 | replacing backslashes first, then braces, escapes each character independently (no character is escaped twice) |
| Rtf.Document | blog/views.py:2237-2240 | the document begins with the fixed RTF header and ends with "}" |
| Rtf.BuildDocument | blog/views.py:2237-2240 | the line-by-line loop builds exactly the document |
| Rtf.DecodeEscaped | blog/views.py:2239 | un-escaping undoes the escaping of a line |
| Rtf.DecodeBody | blog/views.py:2238-2239 | the body decodes to the lines, each followed by a newline |
| Rtf.RecoverDocument | blog/views.py:2237-2240 | the exported text can be recovered exactly from the RTF document |
| Registration.IsEmailMatches | blog/views.py:2546 | the executable email check agrees with the pattern `^[a-zA-Z0-9._%+-]+@[a-zA-Z0-9.-]+\.[a-zA-Z]{2,}$` |
| Registration.NameErrors | blog/views.py:2533-2541 | a name contributes at most one error |
| Registration.EmailErrors | blog/views.py:2544-2549 | the email contributes at most one error, checked in the order missing, malformed, taken |
| Registration.UsernameErrors | blog/views.py:2551-2556 | the username contributes at most one error, checked in the order missing, short, taken |
| Registration.NoErrorsIffAcceptable | blog/views.py:2530-2569 | no error is reported iff every rule holds: names of 2+ characters, a well-formed free email, a free username of 3+ characters, equal passwords of 4+ characters |
| Registration.PasswordErrorsAccumulate | blog/views.py:2558-2567 | errors accumulate: a short password without confirmation reports both problems |
| Registration.Register | blog/views.py:2522-2625 | a verification is sent iff there is no error and the mail goes out; it carries the stripped username, the stripped lower-cased email, the stripped first and last names and the first password; form errors are returned in order; with no form error a mail failure returns exactly the mail error |
| Registration.ErrorText | blog/views.py:2533-2615 | a mail failure shows the mail prefix followed by the exception text; every other error shows its fixed message |
| Registration.MailTextInjective | blog/views.py:2615 | different exceptions give different mail-failure messages |
| Registration.CreatedOnlyWhenAcceptable | blog/views.py:2569-2589 | nothing is created unless every rule holds |
| Reading.OpenPage | blog/views.py:3378-3387 | a new row starts at the default page; an existing one moves forward only |
| Reading.OpenPageIdempotent | blog/views.py:3384-3387 | opening the same page again changes nothing |
| Reading.SessionReachesFurthest | blog/views.py:3384-3387 | after any sequence of opened pages, the stored page is the furthest reached, never less than the start or any page opened |
| Subscription.DurationDays | blog/models_subscription.py:70-78 | monthly 30, quarterly 90, yearly 365, lifetime 36500, anything else 30 |
| Subscription.ActiveCases | blog/models_subscription.py:115-129 | the free tier is always active (even past an expiry) and never premium; a paid plan is active iff its status is active and it has not expired; premium iff the plan type is standard, premium or vip |
| Subscription.ExpiredIsInactive | blog/models_subscription.py:115-123 | a plan whose expiry has passed is not active |
| Subscription.ResetDailyLimits | blog/models_subscription.py:131-138 | on a new day both counters become 0 and today is recorded; on the same day nothing changes; the plan, expiry and status are untouched |
| Subscription.ResetIdempotent | blog/models_subscription.py:131-138 | a second reset on the same day is a no-op |
| Subscription.CanReadBook | blog/models_subscription.py:140-145 | allowed iff the reset books counter is below the limit (2 without a plan) |
| Subscription.CanUseAi | blog/models_subscription.py:147-152 | allowed iff the reset AI counter is below the limit (3 without a plan) |
| Subscription.IncrementBookRead | blog/models_subscription.py:154-158 | the books counter grows by one after the reset; the other counter only resets |
| Subscription.IncrementAiRequest | blog/models_subscription.py:160-164 | the AI counter grows by one after the reset; the other counter only resets |
| Subscription.NewDayIncrement | blog/models_subscription.py:154-158 | the first read of a new day leaves the counter at 1 |
| Subscription.GatedReadsWithinLimit | blog/models_subscription.py:140-158 | reading only when allowed never takes the counter past the limit |
| Subscription.DaysRemaining | blog/models_subscription.py:166-171 | no expiry means unlimited; otherwise the whole days left, and 0 once expired |
| Subscription.AddBonusDays | blog/models_subscription.py:173-178 | bonus days grow by `days`; the expiry moves by `days` only when set |
| Subscription.AddBonusDaysAdditive | blog/models_subscription.py:173-178 | adding a and then b days is adding a+b |
| Subscription.ApplyPromo | blog/models_subscription.py:274-280 | a percentage code takes that many hundredths of the price off, staying within [0, price] up to 100; a fixed code takes its value off, and gives 0 when it exceeds the price; days and trial codes leave the price unchanged |
| Subscription.PercentOff | blog/models_subscription.py:277 | price·(100−p)/100 lies within [0, price] for 0 ≤ p ≤ 100 |
| Subscription.PercentageAboveHundredNegative | blog/models_subscription.py:277 | a percentage above 100 gives a negative price (no clamp in the source) |
| Subscription.Discount | blog/views_subscription.py:145-154 | no valid promo, no discount; a valid percentage code discounts exactly what `apply` takes off; a fixed code discounts its value; days and trial codes discount nothing |
| Subscription.Checkout | blog/views_subscription.py:127-156 | a free plan is switched to directly; otherwise the discount is the promo's (percentage or fixed, zero without a valid code) and the final price is max(0, price − discount), the full price without a valid code |
| Subscription.CreatePayment | blog/views_subscription.py:202-235 | the payment is always pending; a valid promo is applied and its use counted, an invalid one changes nothing |
| Subscription.UsageBounded | blog/views_subscription.py:217-223 | repeated payments never use a promo more than its maximum |
| Subscription.CheckoutAgreesWithPayment | blog/views_subscription.py:145-156 | for a fixed code, or a percentage code up to 100, the checkout price and the payment amount agree |
| Subscription.PayReferrer | blog/views_subscription.py:368-383 | a pending invite and a paid plan pay the referrer 7 days, count one more successful invite and 7 earned days, and set the flag; otherwise nothing changes |
| Subscription.PlanBadges | blog/views_subscription.py:399-402 | vip gives Vip, premium gives FirstPremium, any other plan nothing |
| Subscription.Activate | blog/views_subscription.py:358-402 | the plan is set, active, started now and expiring after the plan's duration; the plan badge is added |
| Subscription.ReferralPaidOnce | blog/views_subscription.py:368-383 | activating twice pays the referrer at most once |
| Subscription.InviterBadges | blog/views_subscription.py:386-395 | the inviter badges are held iff already held or the successful invites reach 5 or 20 |
| Subscription.TrackReferral | blog/views_subscription.py:434-455 | self-referral and a missing code change nothing; otherwise the invite is created, the code's invites grow by one and the new user gets 3 bonus days; a second invite raises |
| Subscription.UpdateStreak | blog/models_subscription.py:466-483 | no prior day: 1; a one-day gap: +1; a longer gap: 1; same day: unchanged; longest becomes the larger of the new current streak and the old longest; today is recorded |
| Subscription.UpdateStreakSameDay | blog/models_subscription.py:466-483 | a second update on the same day changes nothing |
| Subscription.AddPoints | blog/models_subscription.py:485-488 | points grow by exactly the amount and nothing else changes |
| Subscription.AwardBadges | blog/views_subscription.py:563-580 | a badge is held afterwards iff it was already held or its threshold is met |
| Subscription.AwardBadgesIdempotent | blog/views_subscription.py:578-580 | awarding twice is awarding once |
| Subscription.AwardBadgesMonotone | blog/views_subscription.py:567-580 | better statistics never earn fewer badges |
| Payme.Utf8Char | blog/views_subscription.py:269 | UTF-8 of one character: 1 to 4 bytes, one byte exactly for ASCII, continuation bytes in 0x80..0xBF |
| Payme.Utf8Ascii | blog/views_subscription.py:269 | ASCII text encodes byte for byte |
| Payme.ValueOfSymbol | blog/views_subscription.py:269 | each Base64 symbol decodes to its index (section 4 of RFC 4648) |
| Payme.EncodeLength | blog/views_subscription.py:269 | Base64 output has 4·⌈n/3⌉ characters |
| Payme.DecodeLength | blog/views_subscription.py:269 | only lengths divisible by 4 decode |
| Payme.DecodeEncode | blog/views_subscription.py:269 | decoding the Base64 encoding gives back the bytes |
| Payme.EncodeInjective | blog/views_subscription.py:269 | different payloads give different encodings |
| Payme.Truncate | blog/views_subscription.py:268 | `int(x)` truncates toward zero |
| Payme.PaymeUrl | blog/views_subscription.py:262-271 | the URL is the checkout base followed by the encoding |
| Payme.PaymeUrlCarriesPayload | blog/views_subscription.py:262-271 | the payload can be recovered exactly from the URL |
| Payme.AmountField | blog/views_subscription.py:268 | an amount with whole hundredths puts exactly those hundredths in the payload, and they parse back |
| Engagement.UpdateStreak | blog/models_engagement.py:128-150 | the return value is the current streak; same day: no field changes; other days: today recorded and longest becomes the larger of the new current streak and the old longest |
| Engagement.UpdateStreakDay | blog/models_engagement.py:131-142 | no prior date gives 1, yesterday gives +1, any other earlier or later date resets to 1 |
| Engagement.UpdateStreakIdempotent | blog/models_engagement.py:134-136 | updating twice on one day is updating once |
| Engagement.Multiplier2 | blog/models_engagement.py:152-160 | the doubled multiplier is 6 iff the streak is at least 30, 4 iff 14..29, 3 iff 7..13, 2 below 7 |
| Engagement.MultiplierMonotone | blog/models_engagement.py:152-160 | the multiplier never decreases as the streak grows |
| Engagement.BonusPointsBounds | blog/views_engagement.py:95-97 | the bonus lies in [10, 72], and is at least 12 from streak day 1 |
| Engagement.ClaimDailyBonus | blog/views_engagement.py:81-109 | refused iff today's bonus exists; otherwise the streak is updated, today recorded and the points added exactly |
| Engagement.BonusOncePerDay | blog/models_engagement.py:23 | a second claim on the same day is refused |
| Engagement.PrizeWeightsSumToHundred | blog/views_engagement.py:140-153 | the prize weights sum to 100 |
| Engagement.CumMonotone | blog/views_engagement.py:156-161 | cumulative weights never decrease |
| Engagement.Pick | blog/views_engagement.py:156-162 | the selection is always a valid prize |
| Engagement.PickIff | blog/views_engagement.py:156-162 | for r in [1, total], prize k is chosen iff its cumulative interval contains r |
| Engagement.Interval | blog/views_engagement.py:153-154 | the draws in (a, b] number b − a |
| Engagement.PickCount | blog/views_engagement.py:153-162 | each prize is chosen by exactly its weight in draws |
| Engagement.SelectPrize | blog/views_engagement.py:156-162 | the loop with its early `break` selects the same prize |
| Engagement.ApplyPrize | blog/views_engagement.py:177-201 | points prizes add their value; nothing and double_next change no balance; tasks and claim days are untouched |
| Engagement.PremiumPrize | blog/views_engagement.py:182-195 | a premium prize extends the expiry (or sets now + value days); without a subscription it becomes ten points per day |
| Engagement.SpinWheel | blog/views_engagement.py:131-201 | refused iff already spun today; otherwise the drawn prize is applied and today recorded |
| Engagement.SpinOncePerDay | blog/views_engagement.py:136-137 | a second spin on the same day is refused |
| Engagement.CheckCompletion | blog/models_engagement.py:105-110 | completed iff it already was or progress reached the target; the timestamp is set only on that transition; the return value is the flag |
| Engagement.UpdateTaskProgress | blog/views_engagement.py:256-270 | every task is advanced in place; the streak is untouched |
| Engagement.AdvanceEffect | blog/views_engagement.py:260-269 | only today's incomplete tasks of the type move: progress grows by `count` and completion follows the target; nothing is un-completed or un-claimed |
| Engagement.FindClaimable | blog/views_engagement.py:229-234 | finds a task with the id that is completed and unclaimed, and fails iff there is none |
| Engagement.ClaimTaskReward | blog/views_engagement.py:223-253 | not found iff no such task; otherwise exactly its reward is added and the task is marked claimed |
| Engagement.TaskRewardOnce | blog/views_engagement.py:229-243 | a second claim of the same task fails |
| Engagement.AssignTasks | blog/views_engagement.py:45-51 | tasks are drawn only on a day without any |
| Engagement.AssignKeepsUnique | blog/models_engagement.py:99 | assigning keeps one task row per (task, day) |
| Engagement.ProgressKeepsUnique | blog/models_engagement.py:99 | progress updates keep one task row per (task, day) |
| Uploads.RateLimitKey | blog/utils.py:34-39 | the key names the user id when authenticated, else the client IP |
| Uploads.RateLimitKeysSeparate | blog/utils.py:34-39 | a user's key never collides with an anonymous IP key |
| Uploads.Admit | blog/utils.py:42-54 | admitted iff the stored count is below the limit; admission stores count+1, refusal changes nothing |
| Uploads.AdmittedBound | blog/utils.py:42-54 | of n requests in one window exactly min(n, limit − count) are admitted, and none once the count has reached the limit |
| Uploads.ClientIp | blog/utils.py:59-66 | the first X-Forwarded-For entry, stripped; else REMOTE_ADDR; else "" |
| Uploads.ClientIpFirstHop | blog/utils.py:61-63 | behind proxies the client is the stripped first hop, whatever the later hops and REMOTE_ADDR say |
| Uploads.ExtensionsOf | blog/utils.py:131-136 | the extensions listed for a MIME type, absent iff the type is not listed |
| Uploads.SplitExt | blog/utils.py:111 | `os.path.splitext`: the two parts concatenate to the name, and the extension is empty or starts with a dot |
| Uploads.ValidateSize | blog/utils.py:148-163 | accepted iff size ≤ maximum (equality accepted) |
| Uploads.ValidateType | blog/utils.py:100-145 | accepted iff sniffing succeeded, the MIME type is listed and the lower-cased extension is listed for it |
| Uploads.ValidateUpload | blog/utils.py:166-197 | a missing file is rejected; the size is checked before the type, with limits 10, 50 and 20 MB |
| Uploads.AcceptedUpload | blog/utils.py:166-197 | an accepted file is within its limit and its type and extension are a listed pair |
| Uploads.RemoveUnsafe | blog/utils.py:209 | only word characters, whitespace, '-' and '.' remain |
| Uploads.CollapseSpaces | blog/utils.py:212 | whitespace runs become '_', so no whitespace remains |
| Uploads.StripDots | blog/utils.py:215 | no dot at either end |
| Uploads.Shorten | blog/utils.py:218-220 | names of up to 100 characters are kept; longer ones become a 95-character stem plus the extension |
| Uploads.SanitizeFilename | blog/utils.py:200-222 | the result is never empty ("file" as fallback) |
| Uploads.SanitizedIsSafe | blog/utils.py:200-222 | the result is never empty, never starts with a dot, and holds only word characters, '-' and '.' (no whitespace, no path separator) |
| Uploads.ShortenLength | blog/utils.py:218-220 | the shortened name is at most 100 characters unless the extension itself is long |
| Social.SecondsField | blog/models_social.py:83-89 | `timedelta.seconds` is always in [0, 86400), and equals the difference when that is under a day |
| Social.VisibilityFlags | blog/models_social.py:166-174 | deleted for everyone: visible to no one; the sender's flag hides the message only from the sender, the receiver's only from the receiver |
| Social.FileExtension | blog/models_social.py:176-180 | "" without a file; otherwise the extension of the stored path, i.e. its lower-cased text after the last dot as Text.ExtOf states it |
| Social.NoFileNoImage | blog/models_social.py:182-184 | a message without a file is never an image |
| Social.SizeUnitOf | blog/models_social.py:186-193 | bytes iff below 1024, KB iff below 1024², MB otherwise |
| Social.UpdateOnlineStatus | blog/models_social.py:62-66 | online, last seen now, typing untouched |
| Social.SetOffline | blog/models_social.py:68-73 | offline, last seen now, typing target cleared |
| Social.StartTyping | blog/models_social.py:97-101 | target and start time set together |
| Social.StopTyping | blog/models_social.py:103-107 | target and start time cleared together |
| Social.TypingConsistentPreserved | blog/models_social.py:62-107 | every profile update keeps "a typing target has a start time" |
| Social.OnlineStatusAsWritten | blog/models_social.py:75-95 | as written: "" when hidden, "Online" when online, the long-ago text without a last-seen time, else a bucket by `diff.seconds` |
| Social.DaysBucketUnreachable | blog/models_social.py:89-94 | as written, the "days ago" branch is never taken |
| Social.TwoDaysShownAsJustNow | blog/models_social.py:84-85 | as written, a user last seen two days and 30 seconds ago is shown as "just now" |
| Social.OnlineStatus | blog/models_social.py:75-95 | corrected: the buckets measure the whole elapsed time |
| Social.OnlineStatusMeasures | blog/models_social.py:84-94 | corrected: the number shown is the elapsed time in its largest whole unit |
| Social.ToggleFollow | blog/views_social.py:194-220 | following yourself is refused; otherwise exactly the (me, other) pair is toggled and the reply says whether it now exists |
| Social.ToggleTwice | blog/views_social.py:201-213 | toggling twice restores the follower set |
| Social.AttachmentExtension | blog/views_social.py:429 | "" when the name has no dot; otherwise `name.split('.')[-1].lower()`, the lower-cased last of at least two pieces |
| Social.ReplyLink | blog/views_social.py:442-448 | a falsy `reply_to` gives no link; a number or numeric text links iff that message is stored; a non-numeric text raises `ValueError` |
| Social.LinkReply | blog/views_social.py:406-472 | the lookup sees the stored messages including the new one; a link is recorded, or the lookup raises and the message stays stored without one |
| Social.ReplyToSelf | blog/views_social.py:461-472 | a reply to the new message's own id links the message to itself |
| Social.NonNumericReplyFails | blog/views_social.py:396-446 | a non-numeric `reply_to` leaves the message stored and the view failing |
| Social.SendMessage | blog/views_social.py:376-478 | refused when the receiver disallows messages; stored content is stripped, non-empty unless a file is attached, and at most 2000 characters; a file must validate and makes the type image iff its extension is an image one, else file; the reply link is looked up after the message is stored; typing stops unless that lookup raises |
| Social.SendMessageLimited | blog/views_social.py:375 | at most 30 sends per window: refused iff the count has reached 30, otherwise counted and sent |
| Social.StoredExtensionAgrees | blog/views_social.py:421-433 | the extension taken from the sanitized name agrees with the stored file's extension |
| Social.AttachmentTypeMatchesIsImage | blog/views_social.py:428-433 | a sent attachment is typed "image" iff `is_image` holds for the stored message |
| Social.DeleteWith | blog/views_social.py:498-528 | only the sender or receiver may delete; for everyone needs the sender and the window and clears the content and file; otherwise only the caller's side flag is set |
| Social.DeleteMessageAsWritten | blog/views_social.py:509-518 | as written: the window test reads `time_diff.seconds` |
| Social.DeleteWindowReopens | blog/views_social.py:511-512 | as written, a message a day and a minute old can again be deleted for everyone |
| Social.DeleteMessage | blog/views_social.py:498-528 | corrected: delete-for-everyone only within 900 seconds of sending |
| Social.DeleteEffect | blog/views_social.py:509-527 | deleted for everyone: invisible to all and empty; deleted for me: hidden from me and from no one else |
| Social.EditWith | blog/views_social.py:533-557 | edited iff by the sender, a text message, within the window, with non-empty content of at most 2000 characters; content and edit time are set |
| Social.EditMessageAsWritten | blog/views_social.py:542-544 | as written: the window test reads `time_diff.seconds` |
| Social.EditWindowReopens | blog/views_social.py:542-544 | as written, a message a day and a minute old can be edited again |
| Social.EditMessage | blog/views_social.py:533-557 | corrected: editing only within 900 seconds of sending |
| Social.IsTypingAsWritten | blog/views_social.py:599-603 | as written: the expiry test reads `.seconds` |
| Social.StaleTypingShown | blog/views_social.py:601-603 | as written, typing started a day and 5 seconds ago is reported as current |
| Social.IsTyping | blog/views_social.py:599-603 | corrected: typing is reported only toward me and only within 10 seconds |
| Social.LastId | blog/views_social.py:573-578 | no parameter, or one `int()` rejects, gives 0; otherwise its value |
| Social.NewMessages | blog/views_social.py:581-588 | exactly the messages from the other user to me above the last id that are not deleted for everyone or by me |
| Social.GetNewMessages | blog/views_social.py:570-603 | the new messages are returned and marked read, nothing else is; my profile goes online; typing uses the corrected expiry |
| Social.PolledAreVisible | blog/views_social.py:581-588 | every polled message is visible to me |

## Left out

- Library internals are not modelled: pypdf, PyMuPDF, pdfplumber, python-docx, pytesseract and
  pdf2image. Their results are inputs.
  - This includes the page-break detection in DOCX runs (blog/models_new.py:104-113); it becomes the
    paragraph's flag.
- The database, HTTP requests and responses, templates, sessions, logging, notifications and e-mail
  sending are not modelled. A mail failure is an input of `Registration.Register`. Rows are updated
  one after another, with no concurrency.
- The Groq LLM calls are not modelled. The analysis record and the answer text are inputs of
  `Search.SearchBooks`, and the LLM prompt texts are left out. An analysis whose `corrected` or
  `keywords` entries are not strings raises inside the `try` (blog/views.py:91-101). The terms appended
  before the raise stay in the list. The model takes strings only and does not model that partial list.
- The messages returned by `get_new_messages` are ordered by `created_at`. The model keeps storage
  order, which is assumed to be creation order.
- Uploaded files are stored by Django storage. The model stores an attachment at `chat_files/` plus
  the sanitized name, and leaves out storage's renaming of clashing names.
- The multipart `message_type` field has no lasting effect: with a file the type is recomputed, and
  without one it is "text". It is therefore not a field of `Social.SendRequest`.
- The transaction id (`uuid4`) is a parameter, as are all random draws.
- The time-to-live of rate-limit counters is not modelled. One counter map stands for one window.
- Python's `lower()` is modelled for ASCII letters only, and `\w` matches only ASCII letters, digits and
  underscore. The NFKD normalisation in `sanitize_filename` is left out.
- `int()` is modelled for an optional sign and ASCII digits around whitespace. Unicode digits and
  underscores between digits are not accepted.
- Floating point is not modelled:
  - prices are exact reals;
  - `int(amount * 100)` truncates an exact product, so float rounding error is not modelled;
  - the `.1f` formatting of `format_file_size` is left out, and only the unit choice is kept.
- The other `convert_file` branches, the format converters, the image tools, the front-end scripts and
  the one-off scripts are not part of this model.
- The DOCX chunking by 40 paragraphs and the TXT chunking by 50 lines, or by 2000 characters, appear in
  no source file modelled here. The code splits DOCX at page breaks and stores TXT as one page, and
  that is what is modelled.
- `read_book`'s choice of viewer by extension is not modelled (blog/views.py:3359-3376). It does not
  affect the progress row.
- Subscription.GatedReadsWithinLimit: states the bound only after at least one attempt. With zero
  attempts on a new day the stored counter is stale and may exceed the limit.
- Social.PolledAreVisible: requires the two users to differ. In a chat with oneself the poll can return
  a message the sender deleted for themselves.
- Search.AiAnswer: states when an answer may appear, not its content, which comes from the LLM.
- A JSON `reply_to` that is a boolean, a float or a list is not modelled. `Social.ReplyRef` covers
  null, a whole number and a text. The `ValueError` text is Django's wording; it is not a result the
  model relies on. A JSON `content` that is null or not a string makes `.strip()` raise
  `AttributeError` in `send_message` and `edit_message` (blog/views_social.py:452, 547). That server error is
  not modelled either: the model takes the content as a string.
- `int()` of request data raising `ValueError` is not modelled: the `page` query parameter of `read_book`
  (blog/views.py:3352) and a non-numeric `task_id` in `claim_task_reward` (blog/views_engagement.py:225-229)
  would end the request with a server error. `Reading.OpenPage` and `Engagement.ClaimTaskReward` take
  whole numbers.
- Cascade.PypdfText: states only the exception case. The joined text itself is given by its
  definition.

## Findings

| source | as written | input that shows it | evidently intended | confidence | as-written member | corrected member |
|---|---|---|---|---|---|---|
| blog/views.py:303-308 | OCR output is accepted when `len(ocr_text.strip()) >= 20`, and `ocr_text` includes the "--- Sahifa i ---" markers | a scanned PDF of two pages where OCR recognises nothing: the markers alone exceed 20 characters, so a text of markers is returned as the book's text | measure only the recognised page text | high (not executed) | Cascade.BlankScanAccepted | Cascade.OcrStageIntended, Cascade.BlankScanRejectedIntended, Cascade.ExtractPdfTextIntended |
| blog/models_social.py:84-94 | the buckets test `diff.seconds`, which is the remainder of a day | last seen 2 days and 30 seconds ago: shown as "just now"; the "days ago" branch can never run | bucket by the whole elapsed time, e.g. `diff.total_seconds()` | high (not executed) | Social.OnlineStatusAsWritten, Social.DaysBucketUnreachable, Social.TwoDaysShownAsJustNow | Social.OnlineStatus, Social.OnlineStatusMeasures |
| blog/views_social.py:511-512 | delete-for-everyone allowed when `time_diff.seconds <= 900` | a message sent 1 day and 60 seconds ago can be deleted for everyone | allow only within 900 seconds of sending | high (not executed) | Social.DeleteMessageAsWritten, Social.DeleteWindowReopens | Social.DeleteMessage |
| blog/views_social.py:542-544 | editing refused only when `time_diff.seconds > 900` | a text message sent 1 day and 60 seconds ago can be edited | allow only within 900 seconds of sending | high (not executed) | Social.EditMessageAsWritten, Social.EditWindowReopens | Social.EditMessage |
| blog/views_social.py:601-603 | typing expires when `.seconds > 10` | typing started 1 day and 5 seconds ago is reported as current | expire after 10 seconds of real time | high (not executed) | Social.IsTypingAsWritten, Social.StaleTypingShown | Social.IsTyping |
