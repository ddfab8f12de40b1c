# Lightning Address service: a verified model

This project models the stateful core of a Lightning Address service and proves what that core
promises for every input, every run and every interleaving. Dafny 4.11 checks it with
`dafny verify dfyconfig.toml`.

The service sells stable-coin delivery of Lightning payments: a payer asks for an invoice, a swap
provider reports progress by webhooks, accounts own names and sign their requests. The model covers:

- **Swap orders** (`SwapStateMachine`, `SwapTexts`, `SwapTables`, `SwapInvariant`, `SwapDelivery`,
  `SwapMeaning`, `SwapCases`, `SwapService`). Four tables, each transaction all-or-nothing, runs of
  quote creations, webhook deliveries and refund resolutions. One inductive invariant holds over every
  run. The main results: an order's history is a path of the table with at most one final jump;
  redelivery and early delivery change nothing; the first terminal event delivered decides the order,
  whatever surrounds it, and leaves the status its name stands for; every column of every table goes
  back to a quote, a payload or a resolution of the run; and it is known exactly which orders end with a
  refund case.
- **The replay cache and the signature guard** (`ReplayCache`, `SignatureGuard`, `SignedRequests`,
  `ReplayGuard`). An admitted request carries a signature of a known account over its own text, in time,
  and it is decided exactly which requests are admitted. The pruned, swept and capped map of maps
  answers exactly as a log that forgets nothing. A signed message is admitted at most once per key while
  it is looked up inside its window; the guard reads the clock twice, and the exact condition under
  which the second reading matters is proved.
- **Names, accounts and nonces** (`NameRegistry`, `NameRegistryInvariant`, `NameChanges`, `NameAnswers`,
  `NameOrigins`, `NonceSafety`, `KeyForms`, `AccountService`). Every read and every commit of a request
  is a step of its own, and requests interleave freely. Ownership, the single active name, single use of
  nonces, what each step answers exactly, the truth of every success and every refusal, the origin of
  every name in a signed callback or a change that found it not reserved, when a commit on a stale read
  goes through, invisible purges, and the exact quota of serial runs.
- **Reserved names** (`NameSegmentation`, `ReservedNames`, `ReservedDictionary`, `ListedSkeletons`,
  `ReservedCompounds`, `ReservedSpelling`). Which characters imitate each other, and what imitations,
  separators, letter case, doubled letters and letter pairs leave of a verdict; the three-valued table
  equals the declarative question "is there a split"; how skeletons of joined names relate; and, for the
  shipped word lists, exactly which compounds are reserved, in whatever spelling.
- **The quote reconciler** (`QuoteReconciler`, `QuoteSnapshots`, `QuoteProgress`). Three queues
  partition the live orders, each row is fetched within a bounded number of batches while others leave,
  and so every order the provider has settled is concluded within a bound, even if no webhook arrives
  and even if the order changes its queue while it waits.
- **Invoices and signatures** (`Bolt11Tags`, `InvoiceWords`, `QuoteValidation`, `PrintedInvoices`,
  `DerSignature`). The tagged-field reader inverts the printer; amounts agree across multipliers;
  base-32 numbers, bytes in words and DER signatures survive their round trips; the signed bytes fix the
  invoice; and quote validation is decided exactly, for an invoice assembled from its parts by what the
  parts say.

In every stateful part the same operation appears twice: as a function on values, about which the
lemmas speak, and as a method on a class or array that changes state step by step as the program
does, proved equal to the function.

Where the code and its surroundings differ, the code is followed:

- The guard's comments take the skew check and the cache look-up of one request as simultaneous. The
  code reads the clock at both places, so "accepted at most once" holds under the condition stated by
  `RepeatIsAdmittedIff`, and `LateLookupIsAdmitted` gives the runs in which it does not.
- Early delivery: when the redelivered event throws, its rollback leaves the unprocessed dedupe row of
  the early delivery in place. Orders, invoices and refund cases are equal in all cases, and the row
  remains under an exact condition (`EarlyDeliveryIsHarmless`, `UnknownEventLeavesARow`).
- A DER signature of 64 bytes or fewer is not converted by the verifier (`DerIsRecognisedIff`); the
  signature with r and s both one is such a case (`ShortDerIsNotRecognised`).
- A compound of shipped words whose join forms `rn` is folded across the join and is not reserved:
  `operatornews` is free although `operator` and `news` are both listed. `CompoundIsReservedIff` gives
  the exact condition for every compound and spelling.
- Digits around a reserved name do not free it unless they touch a digit of its own: `9uap` is
  reserved and `19uap` is not (`ReadingSurvivesIff`, `DigitBeforeDigitEscapes`). The converse fails:
  `99uap` touches a digit and is reserved all the same (`DoubledDigitStaysReserved`).
- The look-up of a key in both its texts is advisory: two callbacks for the compressed and the
  uncompressed text of one key can both pass it and both register (`RacingFormsBothRegister`);
  `FormsShareAnAccount` says what has to hold for one account per key.
- `test/refund-case.e2e-spec.ts` expects refund cases at other moments than `src/swap/swap.service.ts`
  opens them.

## Model

| member | source | states |
|---|---|---|
| SwapStateMachine.DecideIsSound | src/swap/swap.service.ts:279-291 | For a known status and a mapped event the decision never throws; an applied event leads to the status it is mapped to (the one its name stands for, `EventNamesItsStatus`) by a table edge or a jump from a live into a terminal status; a terminal event is applied exactly when the order is live |
| SwapStateMachine.FirstEventIsApplied | src/swap/swap.service.ts:280-286 | The first mapped event for a pending order is applied, never skipped |
| SwapTexts.EventNamesItsStatus | src/swap/swap-state-machine.ts:191-222 | `order.completed` stands for DELIVERED; every other known event is `order.` and the text of its status in lower case |
| SwapTexts.TableByColumns | src/swap/swap-state-machine.ts:40-122 | The table says of every pair of statuses what its transpose, written out on its own, says |
| SwapTexts.DecideIff | src/swap/swap.service.ts:279-313 | Exactly when a mapped event is applied, is a repeat, or is skipped, for every known status |
| SwapTables.IndexByOrderId | src/swap/swap.service.ts:211-214 | The first row bound to an order id, with every earlier row excluded |
| SwapTables.IndexUnbound | src/swap/swap.service.ts:217-220 | The first row of a quote with no order id yet, with every earlier row excluded |
| SwapInvariant.LocateFinds | src/swap/swap.service.ts:211-227 | The row found is already bound to the order id, or is unbound, carries the payload's quote, and no row at all is bound to that order id |
| SwapInvariant.HandleEffect | src/swap/swap.service.ts:245-383 | A committed event advances one row only, marks one key processed, opens at most one refund case, and leaves invoices alone; a FAILED row has its case, a terminal event leaves a terminal row |
| SwapInvariant.ApplyKeepsInv | src/swap/swap.service.ts:179-400 | Any webhook, committed or rolled back, keeps the invariant and moves rows, keys and refund cases forward only |
| SwapInvariant.StepKeepsInv | src/swap/swap.service.ts:115-383 | Every step keeps: unique invoice, quote and order ids; unbound means PENDING_PAYMENT; delivered amounts only on DELIVERED; every FAILED order has a refund case; case satoshis times 1000 equal the invoice; a processed key belongs to a bound order, concluded if the event was terminal, and concluded or with a case if it was a recovery hold. Bound ids never change and terminal rows are frozen |
| SwapInvariant.RequestKeepsInv | src/swap/swap.service.ts:115-152 | Quote creation, with its unique indexes, keeps the invariant and only appends a pending unbound row |
| SwapInvariant.ResolveKeepsInv | src/refund-case/refund-case.service.ts:130-188 | Resolving a refund case keeps the invariant; amounts and already resolved cases never change |
| SwapInvariant.RunKeepsInv | src/swap/swap.service.ts:115-383 | The invariant holds after every run |
| SwapInvariant.ReachableNeverUnknown | src/swap/swap-state-machine.ts:174-222 | In no reachable state does the classification meet an unknown current status |
| SwapInvariant.EveryHistoryIsALifeCycle | src/swap/swap-state-machine.ts:40-122 | Every order's status history starts at PENDING_PAYMENT, never returns to it, follows table edges (the first read as leaving PROCESSING) and leaves the table at most once, by a jump into a terminal status that ends the history |
| SwapDelivery.DeliverTwice | src/swap/swap.service.ts:183-243 | Any payload delivered twice in a row equals delivering it once, in every state, including throws and unknown orders |
| SwapDelivery.RedeliveriesAreRemovable | src/swap/swap.service.ts:204-208 | Once a key is processed, all later deliveries of it can be deleted from any run without changing the final tables |
| SwapDelivery.FoundDeliveryCommutes | src/swap/swap.service.ts:211-243 | A delivery that finds its order commutes with the creation of any quote |
| SwapDelivery.EarlyDeliveryIsHarmless | src/swap/swap.service.ts:236-243 | Deliver, persist the quote, redeliver ends with the same invoices, orders and refund cases as persist then deliver; one unprocessed dedupe row remains if and only if the key is new, no order took the event, the request creates the order it is for, and the event is unknown or an amount it writes is unparsable |
| SwapDelivery.UnknownEventLeavesARow | src/swap/swap.service.ts:236-279 | The inputs at which that row remains: an event of unknown kind for a quote persisted later |
| SwapDelivery.TerminalRowIsFrozen | src/swap/swap.service.ts:287-313 | A row in a terminal status never changes again in any run |
| SwapDelivery.FirstTerminalWins | src/swap/swap.service.ts:245-325 | In every run a live order ends in the status and delivered amount of the first readable terminal event delivered to it, and stays live when there is none |
| SwapDelivery.RefundCaseIff | src/swap/swap.service.ts:251-383 | In every run a live order ends with a refund case if and only if it had one, was put on a recovery hold before its first terminal event, or that event says it failed |
| SwapDelivery.DeliveryOrderIsIrrelevant | src/swap/swap.service.ts:245-325 | Two runs that deliver one and the same terminal payload, in any order, any number of times and among any other steps, leave the order with the same status and amount |
| SwapMeaning.DeliveryWrites | src/swap/swap.service.ts:210-359 | A new delivery that finds its order throws exactly for an unknown event or an unparsable amount it would write; otherwise the order is bound and, exactly when the event moves it, its status is named by the event and each of amount, fee, error code and error message is the payload's where that event carries it and the old one elsewhere |
| SwapMeaning.FirstEventStoresItsStatus | src/swap/swap.service.ts:279-318 | The first readable mapped event of a pending order stores the status whose text the event's name spells |
| SwapMeaning.FirstTerminalNamesTheEnd | src/swap/swap.service.ts:245-325 | In every run the name of the first readable terminal event spells the status in which the order ends |
| SwapMeaning.MismatchChangesNothing | src/swap/swap.service.ts:228-234 | A new payload that names another quote is thrown out and changes nothing |
| SwapMeaning.UnclaimedIsRecorded | src/swap/swap.service.ts:236-243 | A payload that no row claims is acknowledged and leaves at most its unprocessed dedupe row |
| SwapMeaning.RequestIff | src/swap/swap.service.ts:94-152 | A quote of one to ten million whole satoshis with new ids adds its invoice and one pending order with the quote's columns; any other request changes nothing, and is answered only if it replays an existing order |
| SwapMeaning.EveryColumnWasTold | src/swap/swap.service.ts:115-383 | In every run each invoice, each status, amount, fee and error column of each order, and each dedupe key goes back to a quote asked for, or to a payload delivered to that very order with an event that carries the column |
| SwapCases.EveryCaseWasTold | src/refund-case/refund-case.service.ts:57-188 | In every run each refund case goes back to a failure or recovery hold delivered to the order of its invoice, for the invoice's amount; its status, references and later reason go back to a resolution of that case |
| SwapCases.FirstResolutionWins | src/refund-case/refund-case.service.ts:130-188 | In every run an open case ends as its first resolution makes it, column by column, and unchanged when there is none |
| SwapService.Database.FindByOrderId | src/swap/swap.service.ts:211-214 | The scan finds the first row bound to the order id |
| SwapService.Database.FindUnbound | src/swap/swap.service.ts:217-220 | The scan finds the first unbound row of the quote |
| SwapService.Database.CreateRefundCase | src/refund-case/refund-case.service.ts:57-93 | At most one case per invoice: a second call leaves the first case as it is |
| SwapService.Database.ApplyWebhookEvent | src/swap/swap.service.ts:179-400 | The statement-by-statement handler, with rollback on a throw, realises the atomic delivery step, whose columns and outcome `DeliveryWrites`, `MismatchChangesNothing` and `UnclaimedIsRecorded` give |
| SwapService.Database.Process | src/swap/swap.service.ts:245-383 | Everything after the order is found realises the handling function, columns filled one by one |
| SwapService.Database.InitiateLightningQuote | src/swap/swap.service.ts:94-152 | Invoice and order are created together or not at all; a replayed quote that exists changes nothing |
| SwapService.Database.MarkRefundPaid | src/refund-case/refund-case.service.ts:130-156 | Only an OPEN case becomes PAID, with the given reference and payee or the old ones |
| SwapService.Database.MarkRefundAbandoned | src/refund-case/refund-case.service.ts:163-188 | Only an OPEN case becomes ABANDONED, with the given reason or the old one |
| ReplayCache.PrepareKeepsLive | src/auth/spark-signature.guard.ts:193-203 | Sweep and prune drop no live entry of any key, leave exactly the live ones of this key, and keep the cap |
| ReplayCache.OtherKeysKeepTheirEntries | src/auth/spark-signature.guard.ts:186-259 | A request for one key never drops a live entry of another |
| ReplayCache.LiveSize | src/auth/spark-signature.guard.ts:216-221 | A pruned bucket has exactly as many entries as the log has live ones, so the cap counts the same |
| ReplayCache.StepRefinesLog | src/auth/spark-signature.guard.ts:186-230 | One look-up gives the verdict of the log that keeps everything, and cache and log stay coupled |
| ReplayCache.CacheRefinesLog | src/auth/spark-signature.guard.ts:186-259 | In every run with a non-decreasing clock the verdicts of cache and log are equal at every step, and no bucket exceeds 200 entries |
| SignatureGuard.JoinIsInjective | src/auth/spark-signature.guard.ts:125-130 | Four parts joined by colons determine the parts, even though the URL may contain colons |
| SignatureGuard.CanonicalIsInjective | src/auth/spark-signature.guard.ts:114-130 | Equal canonical messages mean equal method, URL and timestamp text, and equal bodies where bodies are hashed |
| SignatureGuard.NextKeepsInv | src/auth/spark-signature.guard.ts:96-167 | Every request keeps the guard coupled to the log of admissions, and a request that passes the checks before the cache is admitted exactly when that log accepts it |
| SignatureGuard.RepeatIsAdmittedIff | src/auth/spark-signature.guard.ts:191-229 | A repeated message is admitted if and only if its window closed before the cache look-up and the key has room |
| SignatureGuard.SecondAdmissionIsLate | src/auth/spark-signature.guard.ts:108-161 | In every run, a second admission of one message for one key was looked up after its window had closed |
| SignatureGuard.AdmittedAtMostOnce | src/auth/spark-signature.guard.ts:108-161 | From a fresh guard, a non-exempt message is admitted at most once per key whenever it is looked up inside its window, in particular at one clock reading per request |
| SignatureGuard.LateLookupIsAdmitted | src/auth/spark-signature.guard.ts:110-191 | The runs in which two clock readings admit a message twice |
| SignedRequests.AdmissionIsGenuine | src/auth/spark-signature.guard.ts:96-149 | In every state of the cache an admitted request has all three headers, a readable timestamp within the tolerance on both sides, a known account, and a signature that verifies over verb, URL, timestamp and body hash joined by colons; for GET and HEAD these are also enough |
| SignedRequests.WriteIsAdmittedIff | src/auth/spark-signature.guard.ts:96-230 | Any other request is admitted if and only if it is genuine in that sense, no open entry of its key has its text, and fewer than 200 entries of its key are open |
| SignedRequests.LogIsGenuine | src/auth/spark-signature.guard.ts:96-230 | In every run each entry of the log was left by an earlier genuine request that was not a read, with its key, its text and its timestamp plus the tolerance |
| ReplayGuard.Guard.PruneBucket | src/auth/spark-signature.guard.ts:241-247 | The deletion loop leaves exactly the entries whose window is open |
| ReplayGuard.Guard.SweepSeenSignatures | src/auth/spark-signature.guard.ts:252-259 | Every bucket is pruned and empty ones are gone |
| ReplayGuard.Guard.RejectReplay | src/auth/spark-signature.guard.ts:186-230 | The in-place look-up realises the verdict and the new cache |
| ReplayGuard.Guard.CanActivate | src/auth/spark-signature.guard.ts:96-167 | The sequence of checks realises admission; whoever is admitted is genuine, a read is admitted exactly when it is genuine, and a read or a refusal before the cache leaves the cache untouched |
| NameRegistryInvariant.KeyIsNew | prisma/schema.prisma:33-55 | A key that holds no active name belongs to no account, active or retired |
| NameRegistryInvariant.RegistrationKeepsInv | src/auth/auth.service.ts:173-203 | Registration keeps every account on exactly one active name and gives its key to one account only |
| NameRegistryInvariant.WriteKeepsRows | src/username/username.service.ts:150-176 | A successful change transaction, based on a read however old, leaves the account with the requested name as its only active row and no other account touched |
| NameRegistryInvariant.StepKeepsInv | src/username/username.service.ts:91-176 | Every step of every interleaving keeps: names unique, mirror column equal to the key exactly on active rows, one key per account, one account per key, one active row each; rows keep name, owner and key |
| NameRegistryInvariant.RunKeepsInv | src/username/username.service.ts:91-176 | The invariant holds in every state of every run |
| NameRegistryInvariant.OwnershipIsForever | src/auth/auth.service.ts:151-163 | A name once owned keeps its owner and key in every later state of every run |
| NameRegistryInvariant.EveryAccountHasOneActiveName | prisma/schema.prisma:33-55 | In every reachable state each account has exactly one active row, which mirrors its key, and its other rows mirror nothing |
| NameChanges.SuccessIsTrue | src/username/username.service.ts:211-267 | The step that answers success leaves or finds the account on the requested name |
| NameChanges.EverySuccessHappened | src/username/username.service.ts:127-267 | Every success answer, by commit or by convergence after a lost race, has an instant inside the request at which the account's active name was the requested one |
| NameChanges.CommitSucceedsIff | src/username/username.service.ts:150-206 | A commit based on an earlier read goes through if and only if the account has not moved since, or is already on the owned name it asks for, and a name to be created is free; which of the two conditions fails decides the reported violation |
| NameChanges.EveryRefusalIsDeserved | src/username/username.service.ts:91-206 | In every run each refusal is true at the moment it is given: a name called taken exists and is not the account's active one, an account at its limit has none remaining, a registered account is never told it has no name, and a change called in progress was overtaken inside the request; that the refusals of the load, the look-up and the convergence are also given whenever they are due is `LoadAnswersIff`, `CheckTakenIff` and `ConvergeIff` |
| NameChanges.EveryLostRaceHappened | src/username/username.service.ts:198-206 | Whoever is told that another change was processed first has a state inside the request in which the account had left the row that was active when the request was loaded |
| NameChanges.SerialChange | src/username/username.service.ts:211-226 | In a serial run the answered quota equals a fresh re-read, a new name adds one row, a switch back adds none, a refusal changes nothing |
| NameChanges.SerialLedger | src/username/username.service.ts:290-311 | Over any serial run rows equal one plus names claimed and the bonus equals what was granted |
| NameChanges.QuotaIsExact | src/username/username.service.ts:368-390 | In every serial run used changes never exceed 2 plus grants, and remaining is exactly 2 plus grants minus names claimed, so the clamp never acts |
| NameAnswers.LoadAnswersIff | src/username/username.service.ts:91-122 | The answer to a load, each exactly in its case: no account; the name it is on; a name it does not own and that is reserved; a name it does not own with fewer than two changes and its grants left; nothing otherwise, and then the change goes on |
| NameAnswers.CheckTakenIff | src/username/username.service.ts:127-147 | A name to be claimed is refused as taken if and only if another account has it, active or retired |
| NameAnswers.ConvergeIff | src/username/username.service.ts:178-206 | A lost race is answered with success if and only if the account is on the name asked for, and otherwise with the cause of the loss |
| NameAnswers.SerialChangeIff | src/username/username.service.ts:91-226 | With nothing in between, a change succeeds if and only if the account is registered, not on the name, and owns it, or the name is not reserved, changes are left and no row has it; it is a switch back exactly when the account owns the name |
| NameAnswers.StartIff | src/auth/auth.service.ts:83-148 | A callback goes on if and only if its nonce is on record, unused and not past its end, and what it brings is well formed, signed and not reserved; it remembers its nonce, key and name |
| NameAnswers.RegisterIff | src/auth/auth.service.ts:173-203 | A registration commits if and only if its nonce is unused and before its end, no row has the name and none holds the key; it uses up that nonce alone and adds one account with one active row |
| NameAnswers.GrantIff | src/username/username.service.ts:290-311 | A grant of one to five raises the ceiling of exactly the account with an active row for the key |
| NameAnswers.PurgeIff | src/auth/auth-nonce-purge.service.ts:59-80 | A purge statement deletes exactly the chosen nonces whose end is more than an hour ago |
| NameOrigins.NewNameWasNotReserved | src/username/username.service.ts:104-176 | In every interleaving every success with a new name goes back to a load of that name for that request at which the name was not reserved |
| NameOrigins.EveryNameHasAnOrigin | src/auth/auth.service.ts:23-203 | In every state of every interleaving each name, active or retired, goes back to a challenge, a signed, well-formed and unreserved callback with its key, and a registration less than five minutes after the challenge, in this order, or to a change of its account that was loaded when the name was not reserved |
| KeyForms.FormsShareAnAccount | src/auth/auth.service.ts:56-73 | Two texts of one key never belong to two accounts, in every run in which each key check looks up all texts and no other text of the key registers between the check and the registration |
| KeyForms.RacingFormsBothRegister | src/auth/auth.service.ts:149-203 | The run in which both look-ups pass before either registers, and one key holds two accounts |
| NonceSafety.StepKeepsNonces | src/auth/auth.service.ts:173-203 | Every step keeps: consumed nonces back a registration, registrations have distinct nonces, users equal registrations |
| NonceSafety.EachNonceBacksOneRegistration | src/auth/auth.service.ts:165-203 | In every state of every interleaving each nonce backs at most one success, and successes, users and history entries are equally many |
| NonceSafety.ConsumedIsRegistered | src/auth/auth.service.ts:174-187 | While nothing is purged, a nonce is consumed if and only if it backs a registration |
| NonceSafety.FailureLeavesNoTrace | src/auth/auth.service.ts:83-203 | A failed callback consumes nothing and creates nothing |
| NonceSafety.PurgesAreInvisible | src/auth/auth-nonce-purge.service.ts:59-80 | Purge statements inserted anywhere, each run keeping its one clock reading while callbacks go on, leave the same callbacks succeeding in the same order, with the same users, names and requests in flight, as long as no request reads a clock more than the grace period behind an earlier purge |
| AccountService.Database.GenerateAuthChallenge | src/auth/auth.service.ts:23-39 | A new nonce is stored for five minutes, unused |
| AccountService.Database.BindUsername | src/auth/auth.service.ts:173-203 | The transaction consumes the nonce, creates the user and binds the name, or leaves all three tables as they were |
| AccountService.Database.ChangeUsername | src/username/username.service.ts:151-176 | Retire then activate or create realises the commit step; a refused transaction restores the rows and names the index |
| AccountService.Database.GrantExtraChanges | src/username/username.service.ts:290-311 | Only the ceiling of the account holding the key moves, by the granted amount |
| AccountService.Database.SelectBatch | src/auth/auth-nonce-purge.service.ts:59-80 | A batch holds purgeable rows only, all of them up to a thousand |
| AccountService.Database.PurgeExpired | src/auth/auth-nonce-purge.service.ts:59-80 | Undisturbed, the loop deletes and reports exactly the smaller of the backlog and 1,000,000 rows, all past their grace |
| NameSegmentation.TableIsRight | src/common/reserved-usernames.ts:184-206 | Each table entry is non-zero exactly when its prefix splits into words, and 2 exactly when some split has a protected word |
| NameSegmentation.SegmentsIntoProtected | src/common/reserved-usernames.ts:180-208 | For every string and dictionary, true exactly when the string splits into protected words and fillers, at least one protected, each later word starting at the previous end or one character before |
| ReservedNames.IsReservedUsername | src/common/reserved-usernames.ts:215-224 | True exactly when some digit-stripped reading of the name has a skeleton that splits; the rows of `ReservedSpelling` say what that means for spellings |
| ReservedNames.FoldPairsJoinIff | src/common/reserved-usernames.ts:114-115 | Folding a joined name equals joining the folds if and only if no `rn` or `vv` forms across the join |
| ReservedNames.CollapseJoins | src/common/reserved-usernames.ts:116-116 | Collapsing a joined name merges exactly the two characters that meet, if they are equal |
| ReservedNames.SkeletonJoins | src/common/reserved-usernames.ts:110-118 | The skeleton of a cleanly joined name is the two skeletons with at most one shared character |
| ReservedNames.CompoundIsReserved | src/common/reserved-usernames.ts:192-201 | A name that splits into words and fillers, followed by any spelling of a protected word of two letters or more, is reserved even when collapsing merges the join, unless `rn` or `vv` forms across it |
| ReservedNames.LookalikeIsReserved | src/common/reserved-usernames.ts:110-134 | Every spelling whose skeleton is a protected word is reserved; which spellings these are is `LookalikeIff` and `ImitationIsReserved` |
| ReservedNames.ReadingSurvivesIff | src/common/reserved-usernames.ts:125-134 | With digits before and after it, a name stays among its own readings if and only if no added digit touches a digit of the name |
| ReservedNames.DigitsDoNotHelp | src/common/reserved-usernames.ts:125-134 | Under that condition digits around a name leave it reserved, whichever of its readings reserves it |
| ReservedNames.NakedNameStaysReserved | src/common/reserved-usernames.ts:125-134 | A name whose reading without outer digits splits is reserved with any digits around it |
| ReservedCompounds.DigitBeforeDigitEscapes | src/common/reserved-usernames.ts:120-134 | With the shipped lists `9uap` is reserved and `19uap` is not |
| ReservedCompounds.DoubledDigitStaysReserved | src/common/reserved-usernames.ts:110-134 | `99uap` is reserved although the added digit touches a digit, so the condition is not necessary for staying reserved |
| ReservedDictionary.EveryEntryIsReserved | src/common/reserved-usernames.ts:12-82 | Every listed word is reserved, whatever is configured besides, alone and after any compound of listed words and fillers it joins cleanly |
| ReservedCompounds.BridgedCompoundEscapes | src/common/reserved-usernames.ts:114-115 | With the shipped lists, a name that splits followed by a listed word it does not join cleanly is not reserved, whatever the spelling of both |
| ReservedCompounds.CompoundIsReservedIff | src/common/reserved-usernames.ts:180-224 | With the shipped lists, a name that splits followed by a listed word, whatever the spelling of both, is reserved if and only if neither `rn` nor `vv` forms across the join |
| ReservedCompounds.PairIsReservedIff | src/common/reserved-usernames.ts:180-224 | The same for any two listed words |
| ReservedCompounds.OperatorNewsEscapes | src/common/reserved-usernames.ts:12-82 | Two listed words whose compound `operatornews` is not reserved |
| ReservedCompounds.NoChainPasses | src/common/reserved-usernames.ts:184-206 | Where no word of the dictionary can lie over some letter, no split reaches past that letter |
| ReservedSpelling.LookalikeIff | src/common/reserved-usernames.ts:84-98 | Two characters fold to one if and only if they are equal or both in one of o0, i1l, z2, e3, a4, s5, g69q, t7, b8 |
| ReservedSpelling.ImitationIsReserved | src/common/reserved-usernames.ts:110-134 | A listed word stays reserved when its characters are replaced by imitations, as long as neighbours are equal in one exactly where they are in the other and no `rn` or `vv` forms |
| ReservedSpelling.ImitatedPairIsReservedIff | src/common/reserved-usernames.ts:180-224 | With the shipped lists, two listed words so imitated, in one name, are reserved if and only if neither `rn` nor `vv` forms where they meet |
| ReservedSpelling.GuapSupportIsReserved | src/common/reserved-usernames.ts:101-101 | `Gu4p.Supp0rt` is reserved, in any case and with any separators |
| ReservedSpelling.SeparatorsAreFree | src/common/reserved-usernames.ts:113-113 | A `.`, `_` or `-` anywhere in a name leaves the verdict, for every dictionary |
| ReservedSpelling.CaseIsFree | src/common/reserved-usernames.ts:112-112 | So does the case of a letter |
| ReservedSpelling.RnReadsLikeM | src/common/reserved-usernames.ts:114-114 | So does writing `rn` for `m` |
| ReservedSpelling.VvReadsLikeW | src/common/reserved-usernames.ts:115-115 | So does writing `vv` for `w`, unless a v stands before it |
| ReservedSpelling.DoublingIsFree | src/common/reserved-usernames.ts:116-116 | So does doubling a letter other than r, n and v |
| ReservedSpelling.DecoratedWordIsReserved | src/common/reserved-usernames.ts:125-134 | A listed word stays reserved with any of the ten digits before and after it |
| QuoteReconciler.QueuesPartition | src/swap/quote-reconciler.service.ts:79-106 | At any instant an order is live and quoted if and only if it is in a queue, and it is in one only |
| QuoteReconciler.QueueHolds | src/swap/quote-reconciler.service.ts:100-109 | A queue holds exactly the rows its filter selects, in ascending id order |
| QuoteReconciler.QueueMeans | src/swap/quote-reconciler.service.ts:79-106 | A row with a quote and no terminal status is in the first queue if it is bound, in the second if it is unbound and expired less than six hours ago or not at all, in the third otherwise |
| QuoteReconciler.PageIff | src/swap/quote-reconciler.service.ts:100-109 | A page holds exactly the rows of its queue beyond the cursor that fewer than `take` such rows precede |
| QuoteReconciler.EveryRowIsFetched | src/swap/quote-reconciler.service.ts:97-111 | If rows may leave but none join, a row that stays among n is fetched within 2 (n / take + 1) batches from any cursor |
| QuoteReconciler.EveryOrderIsFetched | src/swap/quote-reconciler.service.ts:79-111 | The same bound for the orders of the table, batch by batch, with each queue's own page size |
| QuoteReconciler.Reconciler.FindRows | src/swap/quote-reconciler.service.ts:100-109 | The query returns the first page of the queue beyond the cursor |
| QuoteReconciler.Reconciler.ReconcileBatch | src/swap/quote-reconciler.service.ts:72-111 | A batch fetches one page of 20, 20 and 5 rows of the queues, with a grace of six hours, and moves each cursor to its last id, or back to the start after a short page; a batch already running is left alone |
| QuoteSnapshots.ReconcileRow | src/swap/quote-reconciler.service.ts:112-151 | One iteration against the running service realises the deliveries of the snapshot, which `ReconcileIs` gives by its columns |
| QuoteSnapshots.ReconcileIs | src/swap/quote-reconciler.service.ts:115-141 | A snapshot of another order or quote, or without a time, changes nothing; any other is the webhook with the snapshot's columns, followed, once that is committed, by a recovery hold if the order is under review |
| QuoteSnapshots.SnapshotConcludesIff | src/swap/quote-reconciler.service.ts:115-130 | A terminal snapshot concludes a live order if and only if it correlates with the row as fetched, no amount a conclusion writes is unparsable, and the row is or may still become the order it names; status, delivered amount, fee, error code and error message are then the snapshot's own, column by column |
| QuoteProgress.LongStay | src/swap/quote-reconciler.service.ts:79-97 | An order only moves from the fresh to the old unpaid queue and on to the bound one, so in as many batches as the three queues' laps and one more it spends a whole number of laps in one queue |
| QuoteProgress.SettledDuringStay | src/swap/quote-reconciler.service.ts:72-151 | An order settled by its snapshots that waits in one queue of n rows, which none join, is concluded after 2 (n / take + 1) batches of that stay, from any cursor and with any other traffic in between |
| QuoteProgress.SettledOrderIsConcluded | src/swap/quote-reconciler.service.ts:72-151 | An order settled by its snapshots is concluded after the laps of the three queues and one batch, though it may change its queue at any query, from any cursors and with any other traffic in between, as long as none join the queue it is in |
| Bolt11Tags.ScanPrinted | src/flashnet/lightning-quote-fixtures.test-helper.ts:33-46 | Printed fields are read back to their tags, or stopped for a repeated single-use tag |
| Bolt11Tags.PrintIsInjective | src/flashnet/lightning-quote-fixtures.test-helper.ts:33-46 | No two field lists print alike |
| Bolt11Tags.ScanIff | src/common/bolt11-tags.ts:14-31 | Reading succeeds if and only if the words are the printing of a field list that repeats no single-use tag; the list is unique and each tag maps to its last field |
| Bolt11Tags.ReadTags | src/common/bolt11-tags.ts:14-31 | The offset loop meets that characterisation for every word list, and reports where the signature starts |
| QuoteValidation.AmountMatchesIff | src/flashnet/lightning-quote-validation.ts:57-68 | Whichever multiplier is used, the amount is accepted if and only if it is sats times 10,000 pico-BTC |
| QuoteValidation.PrefixRoundTrip | src/flashnet/lightning-quote-validation.ts:55-56 | Every amount printed with every multiplier is read back |
| QuoteValidation.TimestampRoundTrip | src/flashnet/lightning-quote-validation.ts:69-71 | Base-32 decoding inverts the seven-word printing of every value below 2^35 |
| InvoiceWords.WordsRoundTrip | src/flashnet/lightning-quote-fixtures.test-helper.ts:70-74 | Regrouping bytes into five-bit words and back gives every byte string back |
| InvoiceWords.WholeWords | src/flashnet/lightning-quote-validation.ts:89-100 | Words that fill whole bytes, as the signature and the padded data do, are never refused and keep every bit |
| InvoiceWords.SignedBytesAreInjective | src/flashnet/lightning-quote-validation.ts:92-100 | Two data parts of one length with the same signed bytes are the same |
| QuoteValidation.SignatureCoversInvoice | src/flashnet/lightning-quote-validation.ts:89-100 | Two invoices of one shape with the same signed bytes and signature agree in prefix and in every word |
| QuoteValidation.HexIsInjective | src/flashnet/lightning-quote-validation.ts:82-88 | The compared hexadecimal text names one description hash |
| QuoteValidation.ReadInvoice | src/flashnet/lightning-quote-validation.ts:55-81 | Tags are returned if and only if the invoice asks for exactly the requested amount and prints a field list with the required tags |
| QuoteValidation.CheckHash | src/flashnet/lightning-quote-validation.ts:82-88 | The hash is accepted, reported as differing or refused as unreadable, each exactly in its case |
| QuoteValidation.CheckSignature | src/flashnet/lightning-quote-validation.ts:89-139 | The step-by-step check, with its recovery id, low-S and key length rules, decides whether the signed bytes verify under the payee's or the recovered key |
| QuoteValidation.ValidateLightningQuote | src/flashnet/lightning-quote-validation.ts:16-155 | A quote is valid if and only if it is well typed and shaped, unexpired, its invoice asks for exactly the requested amount with the required tags, the description hash agrees, the signature holds and the invoice outlives the second clock reading; the hash is reported if and only if all before it held and it differs; the stored expiry is the minimum of both and lies after the first reading; a refused quote is untouched |
| PrintedInvoices.TagLetters | src/common/bolt11-tags.ts:5-6 | The tags read are p, x, d, s, n and h of the bech32 alphabet, and these are the single-use ones |
| PrintedInvoices.RequiredTagsIff | src/flashnet/lightning-quote-validation.ts:74-81 | The required tags are there if and only if fields p and s hold 52 words and there is either a d field or an h field of 52 words |
| PrintedInvoices.AmountIff | src/flashnet/lightning-quote-validation.ts:55-68 | An amount printed with one of the five multipliers asks for exactly the satoshis it costs, a hundred million to the bitcoin |
| PrintedInvoices.ExpiryOfPrinted | src/flashnet/lightning-quote-validation.ts:69-73 | An invoice assembled with time t expires at t plus the seconds the words of its x field are by their places, or plus 3600 without one, in milliseconds |
| PrintedInvoices.WordsOfBytesIff | src/flashnet/lightning-quote-validation.ts:82-100 | Words read back as a byte string if and only if they are its own regrouping |
| PrintedInvoices.HashIff | src/flashnet/lightning-quote-validation.ts:82-88 | The description hash agrees if and only if the h field holds the bytes that the wanted text spells in hexadecimal, in either case |
| PrintedInvoices.SignedIff | src/flashnet/lightning-quote-validation.ts:89-139 | An assembled invoice is signed if and only if its recovery id is below four and either the 33-byte key of its n field verifies with s at most half the order, or a recovered key verifies |
| PrintedInvoices.ShapeIff | src/flashnet/lightning-quote-validation.ts:23-52 | The quote is well shaped if and only if none of the listed defects is there |
| PrintedInvoices.QuoteIsAcceptableIff | src/flashnet/lightning-quote-validation.ts:16-144 | A quote with an assembled invoice is acceptable, as some reading of its words, if and only if its parts are in order: shape, expiry, amount, single use, required tags, wanted hash, signature and lifetime |
| QuoteValidation.PadToBytes | src/flashnet/lightning-quote-validation.ts:91-93 | The loop appends the fewest zero words that fill whole bytes |
| DerSignature.FitContents | src/auth/secp256k1.utils.ts:51-76 | Dropping or padding the INTEGER contents of 32 bytes gives the bytes back |
| DerSignature.DerRoundTrip | src/auth/secp256k1.utils.ts:51-76 | Every 64-byte signature survives its minimal DER form |
| DerSignature.AnyIntegersAreRead | src/auth/secp256k1.utils.ts:51-76 | Any two INTEGERs, minimal or not and whatever follows, become 64 bytes: each is padded with zeros in front or loses its own front |
| DerSignature.DerIsRecognisedIff | src/auth/secp256k1.utils.ts:158-162 | The DER form reaches the verification as the signature itself if and only if it is longer than 64 bytes |
| DerSignature.ShortDerIsNotRecognised | src/auth/secp256k1.utils.ts:158-162 | The signature with r and s both one has a DER form of 8 bytes, which is not converted |
| DerSignature.FitBuffer | src/auth/secp256k1.utils.ts:51-76 | The padded copy is the last 32 bytes, or the bytes behind leading zeros |
| DerSignature.DerToCompact | src/auth/secp256k1.utils.ts:51-76 | The offset walk inverts the DER printing and otherwise computes the decoding function |

## Left out

- Cryptography and foreign formats: secp256k1 verification and recovery, HMAC, sha256, the bech32
  checksum, date parsing and the printing of JSON values are parameters; sha256 is taken as free of
  collisions.
- I/O and wiring: HTTP clients, controllers, DTOs, configuration, logging, rate limiting, and the
  query-only services.
- The Decimal conversion of amounts: amounts are integers in smallest units, or marked unparsable.
- Columns nothing here depends on: created, updated and resolved times, invoice text and addresses,
  estimated and rounding amounts, raw bodies, and invoices of the satoshi path.
- Row ids: orders are rows by position, refund cases are keyed by their unique invoice id, users by
  position.
- Statuses and events named like inherited JavaScript object properties, which a plain object look-up
  would find; every unknown string is treated alike.
- MySQL details: collation, deadlock retries, and which index is reported when two refuse one insert
  (the name index is taken first). A transaction is atomic and a refused one rolls back.
- Randomness: a `k1` handed out once is never handed out again.
- Which texts are forms of one key, and the letter case of keys: the forms are a parameter, taken as an
  equivalence; how the database compares letter case is left to its collation.
- Quota under arbitrary interleaving: the limit is checked on a read outside the transaction, so the
  quota results are for runs in which each change's read and commit are adjacent. The two queries of
  one state read are taken at one instant.
- Refund resolution under interleaving: reading and updating a case is one step.
- Parsing and caching of `RESERVED_USERNAMES`: the extra skeletons are a parameter. Line terminators,
  which the repeat pattern would not match, cannot occur in normalised names.
- The reconciler's stop signal in the middle of a batch, and the HTTP call that fetches a snapshot;
  the snapshot itself is a parameter.
- CompoundIsReservedIff: is about the shipped lists alone; words configured in `RESERVED_USERNAMES` can
  reserve more compounds, never fewer (`EveryEntryIsReserved` holds with any of them).
- QuoteReconciler.Row: ids are numbers that stand for the ordered text ids.
