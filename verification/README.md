# AutoTrade: a verified model

AutoTrade decides money with exact decimals, guards its state with a crash-aware lock file, fences
the JSON it reads, and learns from historical simulations whose records must be whole. This project
models that core in Dafny and proves what it promises.

| module | what it models |
|---|---|
| `Common` | optional values, results and the set of a sequence |
| `Arithmetic`, `ExactDecimal`, `ExactOperations`, `Rounding` | bounded exact decimal arithmetic: digit counting, envelope, Decimal to Fraction and back, sums and products under the 1024-digit guard, rounding to a quantum |
| `DigitText`, `DecimalText`, `DecimalPreflight` | canonical printing, the wire grammar, text-only admission with a saturating exponent |
| `ResourceLock`, `LockProtocol` | the lock object with the directory guard under it, and many such objects sharing one path |
| `JsonScan`, `JsonValidator` | the nesting scan before decoding and the explicit-stack validator after it |
| `DiagnosticJournal` | the rotating hash-chained journal and its recovery |
| `Publication`, `CandleCoverage` | two-file immutable publication, and the accounting of candles and gaps |
| `ClosedCycles`, `TrainingCampaign` | closed position cycles for the learner, and the campaign that looks for one |
| `RiskCut` | the causal pre-decision risk cut, live and rebuilt after a restart |
| `WorkPackages`, `ReleaseScope` | dependency cycle detection, SBOM reachability and the package partition |

Code that updates things in place is a method or a class here, proved against a specification that
does not mention how it works: a value, a set of reachable things, a recursive domain, a whole-run
invariant. Values of admitted Decimals are spoken of in units of 10^-256 (`Units`), which every
Decimal inside the envelope is a whole number of.

## What the operating system is assumed to do

The lock protocol rests on two rules, which are the enabling conditions of its environment steps: an
operating-system lock is exclusive for one file, and a directory cannot be rebound while a guard on
it is live, nor a lock file's name taken away while a handle on it is. Everything else may fail at
any step, and a process may die at any step. Publication rests on `os.link` being atomic and never
overwriting. Hashes are arbitrary functions; no property here needs them to be free of collisions.

## Where the code does less than one might read into it

- A product of up to four factors is returned exactly when it is representable. From five factors on
  the guard on intermediates makes the outcome depend on the order: four factors of 10^-256 before a
  zero are refused, after the zero they are not (`FiveFactorsOrderMatters`). The exact condition is in
  the contract of `ExactMultiply`. Sums have no such limit below 10^511 terms.
- The learner's net cash outcome is a Decimal subtraction under the ambient context. Whether outcomes
  sum to the cash at the last close minus the initial cash is decided by that context alone: every
  accepted simulation from positive initial cash conserves if and only if the precision is at least
  512 digits (`PrecisionDecides`), and the default is 28. This takes the context's rounding to be
  half-even and its exponent limits to be the default ones, which no difference here comes near. Below 512 an accepted simulation with one
  cycle reports a unit more than it moved (`ConservationFails`). The class of an outcome, positive,
  negative or null, is right in any case.
- A decision whose receipt key is present but null is dated one interval later like one with a
  receipt, although no receipt is checked. Close times increase all the same.
- A rotation to an unused journal name keeps the chain readable if and only if the new name sorts
  after every retained one (`RotationNeedsLaterName`); a clock that goes back breaks it.
- No cut exists once equity is used up: the risk context refuses zero and negative equity, so the
  gate raises instead of blocking (`CausalRiskCut`). Its bound on the drawdown never fires by itself.
- Leaving the directory guard with a primary failure never raises, and leaving it a second time does
  nothing. A directory handle whose close failed is not tried again.
- The text of a NuGet locator is ambiguous (`PurlTextIsAmbiguous`); comparing name and version exactly
  is what makes locked packages and locators correspond one to one.
- The daily archive's check for more rows than a day has intervals cannot fire (`DailyGaps`).

## Model

| member | source | states |
|---|---|---|
| ExactDecimal.IntegerDigitCount | autotrade_numeric/exact_decimal.py:42-61 | The count is the true number of decimal digits saturated one past the limit, in spite of the bit-length shortcut and the early exit |
| Arithmetic.BitLengthForcesDigits | autotrade_numeric/exact_decimal.py:52-53 | A number of more than four bits a digit, plus one, has more digits than the limit, which is why the shortcut is sound |
| ExactDecimal.ValidateDecimalEnvelope | autotrade_numeric/exact_decimal.py:64-88 | The checks pass exactly inside the envelope of 256 significant digits, scale 256 and 256 integer digits; a zero passes whatever its exponent |
| ExactDecimal.EnvelopeMeans | autotrade_numeric/exact_decimal.py:64-88 | The envelope by magnitudes: coefficient and value below 10^256, no place below the 256th, or zero |
| ExactDecimal.ValidateFractionIntermediate | autotrade_numeric/exact_decimal.py:257-271 | The guard passes exactly when numerator and denominator have at most 1024 digits |
| ExactDecimal.AsFraction | autotrade_numeric/exact_decimal.py:281-297 | Succeeds exactly inside the envelope with the reduced fraction of the same value; its own guard never fires |
| ExactDecimal.DecimalFromScaledInteger | autotrade_numeric/exact_decimal.py:316-340 | Returns exactly the Decimal spelled by coefficient and scale when it lies in the envelope, plain zero for zero |
| ExactDecimal.TerminatingDecimal | autotrade_numeric/exact_decimal.py:343-367 | Succeeds if and only if some Decimal in the envelope has this value, whatever exit is taken; the result has that value at the least scale; the non-terminating error means that no decimal expansion terminates |
| ExactDecimal.StrippedBounds | autotrade_numeric/exact_decimal.py:349-361 | Each loop counter is a lower bound on every scale that could spell the value, and a leftover factor rules out all scales |
| ExactDecimal.RepresentableSameValue | autotrade_numeric/exact_decimal.py:343-367 | Representability belongs to the value and not to the pair that spells it |
| ExactDecimal.RepresentableBounded | autotrade_numeric/exact_decimal.py:343-346 | The 1024-digit guard never refuses a representable value |
| ExactOperations.ExactAbs | autotrade_numeric/exact_decimal.py:370-373 | Never fails inside the envelope, and returns the absolute value |
| ExactOperations.ExactAdd | autotrade_numeric/exact_decimal.py:376-379 | Returns if and only if both operands are admitted and the exact sum is representable; the value is that sum; neither guard nor non-termination is ever the reason of a failure |
| ExactOperations.ExactSubtract | autotrade_numeric/exact_decimal.py:382-385 | The same for the exact difference |
| ExactOperations.ExactMultiply | autotrade_numeric/exact_decimal.py:388-393 | Returns if and only if the factors are admitted, every running product stays below the guard and the exact product is representable; the value is the product of the numerators over the product of the denominators |
| ExactOperations.ProductIsExact | autotrade_numeric/exact_decimal.py:388-393 | For any number of factors, the fold that reduces at every step has the value of the product of the rationals the factors denote |
| ExactOperations.ProductGuardMeans | autotrade_numeric/exact_decimal.py:388-393 | The guard on a product holds exactly when every running product, in lowest terms, has both parts below 10^1024 |
| ExactOperations.ThreeFactorsNeverGuarded | autotrade_numeric/exact_decimal.py:388-393 | Up to three factors never reach the guard |
| ExactOperations.FourFactorsComplete | autotrade_numeric/exact_decimal.py:388-393 | Up to four factors, the product is returned whenever it is representable |
| ExactOperations.FiveFactorsOrderMatters | autotrade_numeric/exact_decimal.py:388-393 | With five factors the same representable product is refused in one order and returned in another |
| ExactOperations.ExactSum | autotrade_numeric/exact_decimal.py:396-401 | Returns if and only if everything is admitted, every running total stays below the guard and the total is representable; the value is that total |
| ExactOperations.TotalsAddUp | autotrade_numeric/exact_decimal.py:396-401 | The total is the sum of the terms, wherever the list is cut |
| ExactOperations.SumGuardMeans | autotrade_numeric/exact_decimal.py:396-401 | The guard on a sum holds exactly when every running total, in lowest terms, has a numerator below 10^1024 |
| ExactOperations.SumGuardNeverFires | autotrade_numeric/exact_decimal.py:396-401 | Below 10^511 terms no running total reaches the guard, so only the total decides, in whatever order |
| ExactOperations.UnitsCharacterize | autotrade_numeric/exact_decimal.py:281-297 | Inside the envelope a Decimal denotes a rational exactly when its units say so, so units are the value |
| ExactOperations.ProductOfTwo | autotrade_numeric/exact_decimal.py:388-393 | The product of two Decimals is the product of the rationals they denote |
| Rounding.IsExactDecimalMultiple | autotrade_numeric/exact_decimal.py:300-313 | Answers for every admitted value and positive quantum, and says yes exactly when the value is a whole multiple; its guard never fires |
| Rounding.RoundFractionToQuantum | autotrade_numeric/exact_decimal.py:404-449 | Succeeds exactly when the arguments are admitted, the exact count of quanta stays below the guard and the rounded multiple is representable; the result is that multiple of the quantum |
| Rounding.RoundedQuanta | autotrade_numeric/exact_decimal.py:425-445 | Answers for the three modes and no other, and the three integer formulas compute the rounding that the mode means |
| Rounding.RoundingMonotone | autotrade_numeric/exact_decimal.py:404-449 | Every mode is monotone in the value, across denominators, hence single-valued |
| Rounding.RoundedMonotone | autotrade_numeric/exact_decimal.py:404-449 | A larger value never rounds to fewer quanta, in any mode |
| Rounding.DirectedTightest | autotrade_numeric/exact_decimal.py:411-416 | FLOOR is the greatest multiple not above the value, CEILING the least not below |
| Rounding.HalfEvenNearest | autotrade_numeric/exact_decimal.py:411-416 | HALF_EVEN is a nearest multiple, and of two nearest the even one |
| Rounding.RoundingFixes | autotrade_numeric/exact_decimal.py:300-313 | Each mode leaves a value alone exactly when it is a multiple of the quantum |
| Rounding.DecimalRounding | autotrade_numeric/exact_decimal.py:404-449 | A Decimal is rounded on the grid of its own units, so every mode fixes it exactly when the multiple test answers yes |
| DecimalText.CanonicalDecimalText | autotrade_numeric/exact_decimal.py:452-461 | Refused exactly outside the envelope; what is printed is valid wire text of at most 259 characters, which the strict parser reads back as the same value |
| DecimalText.ParseCanonicalDecimalText | autotrade_numeric/exact_decimal.py:91-103 | Accepts exactly the valid wire scalars; the envelope check after construction never refuses one |
| DecimalText.CanonicalTextParsesBack | autotrade_numeric/exact_decimal.py:452-461 | Every admitted Decimal prints to valid wire text of at most 259 characters that parses back to the same value |
| DecimalText.CanonicalTextIsIdentity | autotrade_numeric/exact_decimal.py:452-461 | Two admitted Decimals print alike if and only if they are equal in value |
| DecimalText.NormalizedUnique | autotrade_numeric/exact_decimal.py:343-367 | A value has one normal form, so equal results of exact operations are equal Decimals |
| DecimalText.WireTextRoundTrip | autotrade_numeric/exact_decimal.py:91-103 | Every accepted wire text is reproduced by parsing and printing |
| DecimalText.WireGeometry | autotrade_numeric/_generated_common_scalars.py:32-72 | On text of the wire pattern the geometry test on characters is the envelope of the parsed value, and implies the length limit |
| DecimalText.PatternIsPlain | autotrade_numeric/_generated_common_scalars.py:12-18 | The pattern matches only least-scale spellings, each spelled in one way |
| DecimalPreflight.PresentationIsSplit | autotrade_numeric/exact_decimal.py:109-112 | Testing the pieces that the cutting finds is matching the presentation pattern |
| DecimalPreflight.OnePassDecides | autotrade_numeric/exact_decimal.py:109-112 | An automaton that reads the text once from the left accepts exactly the same texts as the cutting, which looks for single characters anywhere |
| DecimalPreflight.SplitRender | autotrade_numeric/exact_decimal.py:158-164 | The cutting by sign, marker and point finds the only match of the pattern |
| DecimalPreflight.BoundedExponent | autotrade_numeric/exact_decimal.py:120-143 | The saturating parse returns the true exponent exactly when it lies in the window, however long the digits |
| DecimalPreflight.TokenIsWorth | autotrade_numeric/exact_decimal.py:146-227 | What any token is worth: the digits without the point, over ten to the length of the fraction, times ten to the written exponent, or over it exactly when its sign is minus; negative exactly for sign minus |
| DigitText.SmallerDigits | autotrade_numeric/exact_decimal.py:136-140 | Of two equally long digit strings the one with the smaller character at the first difference denotes the smaller number |
| DecimalPreflight.PreflightBoundedPresentation | autotrade_numeric/exact_decimal.py:146-189 | The text-only check accepts exactly pattern matches of admitted length whose Decimal lies in the envelope, and says whether that is zero |
| DecimalPreflight.ParseBoundedExactDecimal | autotrade_numeric/exact_decimal.py:192-227 | Integers are admitted exactly below 10^256, text exactly when it is short enough, matches the pattern in one pass, has an exponent only if allowed, and its value lies in the envelope; the result is worth the number written, and every zero is plain zero; the re-validation never raises |
| DecimalPreflight.WireTextIsPresentation | autotrade_numeric/exact_decimal.py:192-227 | What the strict wire parser accepts, the permissive boundary accepts and reads as the same Decimal |
| ResourceLock.HandleTable.CloseAll | autotrade_foundation/windows_namespace.py:180-207 | Every handle gets exactly one close attempt whatever the earlier ones did; a failure is raised only without a primary failure |
| ResourceLock.HandleTable.OpenDirectoryChain | autotrade_foundation/windows_namespace.py:433-455 | Either the whole chain is returned, or every handle opened so far gets one close attempt, deepest first |
| ResourceLock.DirectoryGuard.Enter | autotrade_foundation/windows_namespace.py:458-505 | Entered exactly when the whole chain opens and is identified; otherwise every opened handle gets one close attempt and nothing stays registered |
| ResourceLock.DirectoryGuard.Exit | autotrade_foundation/windows_namespace.py:477-505 | The first exit gives each handle of the chain one close attempt, deepest first, and raises only without a primary failure; a later exit does nothing |
| ResourceLock.Lock.constructor | autotrade_runtime/resource_lock.py:160-176 | A new lock is idle |
| ResourceLock.Lock.AdoptWindowsKernelHandle | autotrade_runtime/resource_lock.py:426-477 | A native handle is wrapped, closed, or its ownership is unknowable and the lock is poisoned |
| ResourceLock.OpeningIs | autotrade_runtime/resource_lock.py:397-477 | Which failures of opening leave a handle that nobody owns, and when opening succeeds |
| ResourceLock.Lock.OpenLockHandle | autotrade_runtime/resource_lock.py:397-424 | Whether a handle is got, none is left open, or one is lost, for creating and for opening an existing file |
| ResourceLock.Lock.AcquireAfterParentReady | autotrade_runtime/resource_lock.py:288-311 | Succeeds exactly when every step does; after a failure the handle is kept exactly when its close failed |
| ResourceLock.Lock.Acquire | autotrade_runtime/resource_lock.py:178-286 | Returns normally exactly when the lock was idle and every step named succeeds; what each failure leaves in the three fields |
| ResourceLock.Lock.ReleaseWindowsParentGuard | autotrade_runtime/resource_lock.py:313-337 | The guard is given up; when leaving it raises, it is kept and known to be spent |
| ResourceLock.Lock.Release | autotrade_runtime/resource_lock.py:339-378 | Returns normally exactly when nothing was poisoned, a held lock was unlocked and its handle closed, and every directory of a live guard closed; the three fields in every case; the guard goes only after the handle is confirmed closed, with one close attempt for each directory |
| ResourceLock.EveryRunIsPossible | autotrade_runtime/resource_lock.py:148-378 | Whatever acquire and release calls fail wherever, only five shapes of state occur; on Windows a handle held, kept or lost always has the parent guard live beside it |
| ResourceLock.EveryPossibleIsReached | autotrade_runtime/resource_lock.py:148-378 | Each of those states is reached by some run, so the characterization is exact |
| ResourceLock.PoisonIsAbsorbing | autotrade_runtime/resource_lock.py:178-187 | Once native ownership is unknowable, no later call changes anything |
| ResourceLock.TwoReleasesRecover | autotrade_runtime/resource_lock.py:339-378 | From every other state one release whose handle close succeeds, and one more, reach the idle state |
| LockProtocol.StepKeepsInvariant | autotrade_runtime/resource_lock.py:247-311 | Every step of every object and of the environment keeps guards, handles and locks anchored to the present path |
| LockProtocol.MutualExclusion | autotrade_runtime/resource_lock.py:247-311 | At no time of any run, of any number of objects, are two of them between the normal return of acquire and the start of release |
| LockProtocol.UnconfirmedHandleRetainsPath | autotrade_runtime/resource_lock.py:251-283 | While a lock-file handle is not confirmed closed, its object retains the parent, the path still leads to that file, and nobody can rebind it |
| LockProtocol.PoisonStays | autotrade_runtime/resource_lock.py:451-477 | Whatever it and the others do, a poisoned object stays as it is, with its guard, until its process dies |
| LockProtocol.HandOver | autotrade_runtime/resource_lock.py:339-378 | The protocol is not empty: one object acquires and releases, then another acquires |
| LockProtocol.CallsRefine | autotrade_runtime/resource_lock.py:178-378 | One step of anybody leaves an object at rest, inside its call, or at rest with the fields that some outcome of that call leaves |
| LockProtocol.EveryRunIsACallSequence | autotrade_runtime/resource_lock.py:178-378 | In every run, interleaved in any way, the fields an object rests with are those of a lock after some sequence of calls and outcomes |
| LockProtocol.EveryCallIsARun | autotrade_runtime/resource_lock.py:178-378 | Conversely every call from every resting state, with every outcome the system allows, is a run of that object's own steps ending with the fields the call leaves, and in the held state exactly when acquire returned normally or the lock was held before |
| JsonScan.ValidateJsonNestingBeforeDecode | autotrade_runtime/strict_json.py:87-121 | Accepts exactly the texts whose peak depth is at most 128 |
| JsonScan.DepthIsLargestNet | autotrade_runtime/strict_json.py:87-121 | At each position the depth is the largest net count of openers over closers outside strings on any stretch ending there |
| JsonScan.StringsHide | autotrade_runtime/strict_json.py:92-107 | On any text only quotes and brackets matter outside strings; inside them only an unescaped quote does, and a backslash hides whatever follows |
| JsonScan.PeakBoundsEveryStretch | autotrade_runtime/strict_json.py:87-121 | Accepted texts are those no stretch of which opens more than 128 containers more than it closes; leading closers mask nothing |
| JsonScan.QuotedClimbsNothing | autotrade_runtime/strict_json.py:92-107 | A string literal, with the escapes of section 7 of RFC 8259, hides every bracket and quote inside it |
| JsonScan.PeakIsNesting | autotrade_runtime/strict_json.py:87-121 | On the text of every JSON value, with any white space and escapes, the peak is the nesting of its containers |
| JsonValidator.ValidateStrictJsonValue | autotrade_runtime/strict_json.py:124-170 | The explicit-stack walk terminates and accepts exactly the values with at most 100000 nodes and 128 nested containers whose every node is one of the JSON kinds, every float finite, and every text and key free of surrogate code points |
| JsonValidator.BelowIsInside | autotrade_runtime/strict_json.py:146-165 | The nodes meant are the value itself and those inside its items or entries, and no others |
| JsonValidator.NodesAddUp | autotrade_runtime/strict_json.py:124-134 | Nodes are counted once for each place: side by side they add up, and a container is one more |
| JsonValidator.KeysAreNotNodes | autotrade_runtime/strict_json.py:152-165 | A dictionary counts its values, not its keys |
| JsonValidator.DepthIsOneMore | autotrade_runtime/strict_json.py:146-157 | A container is one deeper than the deepest thing in it, an empty one is one deep, anything else not at all |
| JsonValidator.OrderDoesNotMatter | autotrade_runtime/strict_json.py:124-170 | A walk that pops its entries in any other order gives the same verdict |
| JsonValidator.ContainerFits | autotrade_runtime/strict_json.py:146-170 | A container is acceptable at a depth exactly when its node is, one more level is allowed and its children are acceptable there |
| JsonValidator.UniqueJsonObject | autotrade_runtime/strict_json.py:32-38 | Keeps every pair, or names a key that really occurs twice |
| JsonValidator.DecodedDepth | autotrade_runtime/strict_json.py:173-190 | The decoded value is as deep as the text's tree |
| JsonValidator.DepthCheckCannotFire | autotrade_runtime/strict_json.py:173-190 | After the scan has passed, the depth check of the validator cannot fire |
| DiagnosticJournal.Sampler.Append | tools/historical_diagnostic_sampler.py:106-130 | A sample over the segment bound changes nothing; one that fits joins the active file; one that does not starts a new active file and the old rows become the newest segment; of the segments exactly the newest that there is room for are kept |
| DiagnosticJournal.AppendedIs | tools/historical_diagnostic_sampler.py:114-127 | The specified append, written out: it rotates exactly when the row does not fit, and prunes to the newest segments that leave room, never fewer |
| DiagnosticJournal.Sampler.MakeRoom | tools/historical_diagnostic_sampler.py:114-124 | Rotation when the row does not fit, then pruning, drops whole segments from the old end only |
| DiagnosticJournal.Sampler.SampleOnce | tools/historical_diagnostic_sampler.py:162-165 | The new last row has the next sequence and the digest of the row before it |
| DiagnosticJournal.Sampler.RecoverChain | tools/historical_diagnostic_sampler.py:132-160 | Succeeds exactly on a whole chain within the segment bound, and then remembers exactly the last row |
| DiagnosticJournal.ChainedIs | tools/historical_diagnostic_sampler.py:142-157 | A whole chain is one of complete rows numbered from one upwards, each the successor of the one before with its digest |
| DiagnosticJournal.ReadSegments | tools/historical_diagnostic_sampler.py:142-157 | Reading segment by segment, remembering one row, decides whether the whole sequence is a chain |
| DiagnosticJournal.StepKeepsSound | tools/historical_diagnostic_sampler.py:106-160 | Every filesystem step, the creation of an empty active file among them, every crash and every restart keeps the retained rows the newest ones ever written and a chain within bounds that matches what the process remembers |
| DiagnosticJournal.StepsAreTheAppend | tools/historical_diagnostic_sampler.py:106-130 | Uninterrupted, the filesystem steps of a sample leave what the sequential append leaves |
| DiagnosticJournal.SampleCompletes | tools/historical_diagnostic_sampler.py:106-130 | From every moment between samples, each sample within the segment bound has a run of filesystem steps that leaves what the append leaves |
| DiagnosticJournal.ChainSurvivesEveryRun | tools/historical_diagnostic_sampler.py:106-160 | At every moment of every run, crashes between filesystem steps included, files and bytes are bounded, the retained rows are the newest ever written, and recovery would restore the last of them, whose sequence number is the number of writes so far |
| DiagnosticJournal.StepOnlyDropsOldest | tools/historical_diagnostic_sampler.py:118-127 | A step adds at most one row at the new end and removes rows only at the old end, never the newest |
| DiagnosticJournal.RotationNeedsLaterName | tools/historical_diagnostic_sampler.py:114-118 | A rotation to an unused name keeps the chain readable if and only if that name sorts last or the segment is empty |
| DiagnosticJournal.InsertSortedMeans | tools/historical_diagnostic_sampler.py:114-118 | A rotation adds its segment in name order, and loses one that had the same name and no other |
| Publication.BytesNeverChange | tools/historical_public_klines.py:554-585 | Once a canonical path has bytes they never change, whatever the directory held and whoever runs or dies |
| Publication.ManifestImpliesCsv | tools/historical_public_klines.py:526-585 | Unless a manifest was there before without its CSV, no manifest ever is; each records the digest of the CSV beside it |
| Publication.ReturnIsForEver | tools/historical_public_klines.py:539-585 | From any directory, a normal return means that both paths hold that collector's bytes, then and ever after |
| Publication.ReturnsAgree | tools/historical_public_klines.py:539-585 | From any directory, two collectors that both return published the same two files |
| Publication.RepairsExactlyWhatIsMissing | tools/historical_public_klines.py:552-585 | A collector left alone returns exactly when each path is empty or holds its bytes up to a recorded download time that is not in its future; an earlier manifest is kept with its time, a new one gets the time of this run; otherwise it refuses and changes nothing |
| Publication.RefusedOnlyByOtherBytes | tools/historical_public_klines.py:539-580 | However others interfere, a collector is refused only where a path holds other bytes than it offers at that moment |
| Publication.Series.Collect | tools/historical_public_klines.py:539-585 | The sequential code of one collector: when it returns, and the bytes of both files then |
| CandleCoverage.CheckRow | tools/historical_public_klines.py:219-258 | The checks accept exactly a row of twelve fields, in milliseconds before 2025 and microseconds after, that opens on an interval boundary inside the month, closes just before the next, and has positive prices with the low below and the high above open and close |
| CandleCoverage.YearLength | tools/historical_public_klines.py:268-270 | The months of a year add up to 365 days, or 366 in a leap year, and the first two to 59 or 60 |
| CandleCoverage.YearStarts | tools/historical_public_klines.py:268-270 | Each year starts where the Gregorian calendar puts it in closed form |
| CandleCoverage.FourHundredYears | tools/historical_public_klines.py:268-270 | Any 400 years have 146097 days |
| CandleCoverage.ValidatedRows | tools/historical_public_klines.py:212-275 | Accepts exactly non-empty bounded strictly increasing lists of good rows, and then rows and missing intervals add up to the intervals of the month |
| CandleCoverage.CompleteMeansEverySlot | tools/historical_public_klines.py:259-275 | With nothing missing, row i is the candle of slot i: every slot appears exactly once |
| CandleCoverage.SlotsDistinct | tools/historical_public_klines.py:259-275 | Accepted rows sit in different slots, in order |
| CandleCoverage.DailyGaps | tools/historical_public_klines.py:437-446 | The daily branch refuses only another date; rows and gaps add up to the intervals of the day, so the check for too many rows cannot fire |
| CandleCoverage.MonthRange | tools/historical_public_klines.py:105-112 | Yields every month from the first to the last, each the calendar successor of the one before, and refuses a reversed range |
| ClosedCycles.HistoricalExecutionAvailableAt | tools/historical_learning_adapter.py:68-117 | Without a receipt the decision is dated at the expected time; one with a receipt is accepted exactly when its quantities make its status FILLED, PARTIAL or NO_FILL, that is the status of the decision, and both its times are the expected one |
| ClosedCycles.ClosedCycles | tools/historical_learning_adapter.py:120-215 | Returns exactly for the simulations the checks accept, the cycles of the walk over their decisions |
| ClosedCycles.AcceptedDecisionByDecision | tools/historical_learning_adapter.py:150-206 | The walk goes through exactly when each decision, seen with the ones before it, is bound to its place, readable, with its receipt in order and with a fill if it opens or closes a position |
| ClosedCycles.AcceptedIs | tools/historical_learning_adapter.py:130-215 | Which simulations are accepted as a whole |
| ClosedCycles.CyclesAreTheClosings | tools/historical_learning_adapter.py:179-207 | Cycles are disjoint and ordered, one for each positive-to-flat transition and no other, each opened at the matching flat-to-positive transition, with its own fills and cash; it closes one interval later when the closing decision has a receipt |
| ClosedCycles.EarlierCyclesStay | tools/historical_learning_adapter.py:179-215 | Appending decisions leaves earlier cycles unchanged |
| ClosedCycles.CloseTimesIncrease | tools/historical_learning_adapter.py:167-175 | Close times strictly increase even when decisions with and without receipts mix |
| ClosedCycles.OutcomeExactness | tools/historical_learning_adapter.py:191-201 | A net outcome equals the cash moved if and only if that difference fits the context; the cycle is positive, negative or null exactly as the cash at its close is above, below or equal to the cash before it |
| ClosedCycles.PrecisionDecides | tools/historical_learning_adapter.py:191-207 | The outcomes of every accepted simulation from positive initial cash sum to the cash at the last close minus the initial cash, if and only if the ambient precision is at least 512 |
| ClosedCycles.FullPrecisionConserves | tools/historical_learning_adapter.py:191-207 | At precision 512 or more no outcome is rounded, since a difference of admitted amounts has no more digits |
| ClosedCycles.ConservationFails | tools/historical_learning_adapter.py:191-207 | For each precision below 512 there is an accepted simulation of admitted amounts whose one outcome is not the cash it moved |
| ClosedCycles.OutcomesTelescope | tools/historical_learning_adapter.py:191-207 | Under any precision, outcomes sum to the cash moved when at each closing of the decisions the cash moved since the last flat fits |
| ClosedCycles.RunningTotalsTelescope | tools/historical_learning_adapter.py:191-207 | After every cycle the outcomes so far sum to the cash moved so far, if and only if at each closing of the decisions the cash moved since the last flat fits |
| ClosedCycles.RoundingExactWhenFits | tools/historical_learning_adapter.py:193-193 | Rounding to the context's precision is exact precisely when the value has a spelling that short |
| ClosedCycles.RoundedIsNearest | tools/historical_learning_adapter.py:193-193 | A rounded value fits the precision, and no value that fits is nearer |
| ClosedCycles.RoundingIsHalfEven | tools/historical_learning_adapter.py:193-193 | It is at most half a place of the last kept digit away, and even when exactly half |
| ClosedCycles.RoundingKeepsSign | tools/historical_learning_adapter.py:201-201 | Context rounding never loses the sign of a difference |
| ClosedCycles.OneUnitIsLost | tools/historical_learning_adapter.py:193-193 | Precision p rounds 2 * 10^p - 1 up by one unit |
| TrainingCampaign.HasClosedPositionCycle | tools/run_historical_campaign.py:67-85 | Raises exactly when a bad position comes before any cycle; otherwise true exactly when a positive position is later followed by a flat one |
| TrainingCampaign.StoppingTestAgreesWithLearner | tools/run_historical_campaign.py:67-85 | In every simulation the learner accepts, a positive position is later followed by a flat one exactly when the learner gets a cycle |
| TrainingCampaign.StoppingTest | tools/run_historical_campaign.py:67-85 | On every simulation that both accept, the campaign's stopping test answers exactly whether the learner gets a cycle; it answers whenever all positions are written as strings, which alone it takes |
| TrainingCampaign.TrainingLimit | tools/run_historical_campaign.py:138-146 | The loop ends after at most five simulations; the limit is the first one doubled once for each further run and capped at 168, no shorter prefix tried has a cycle, and the last one has unless it is the longest |
| TrainingCampaign.CyclesPersist | tools/run_historical_campaign.py:138-146 | A longer accepted prefix of the same decisions keeps the cycle, so the longest prefix decides for all |
| RiskCut.Equity | tools/historical_risk_context.py:131-131 | Equity is cash plus marked position, and is there exactly when both amounts are representable |
| RiskCut.Drawdown | tools/historical_risk_context.py:133-137 | The drawdown is the exact fraction rounded up to 18 places, and fails only where peak less equity or the result is not representable: no guard fires |
| RiskCut.DrawdownTight | tools/historical_risk_context.py:133-137 | The rounded drawdown is never below the true fraction and less than 10^-18 above it |
| RiskCut.DailyStart | tools/historical_risk_context.py:138-143 | The loop that stops at the first episode of the current day finds the equity of the last episode on an earlier day, or the start |
| RiskCut.ContextAccepts | mvp/autotrade_mvp/risk.py:1245-1267 | Of the checks of the risk context, those this call can fail: a positive mark, a drawdown from zero to one, a positive equity |
| RiskCut.CausalRiskCut | tools/historical_risk_context.py:79-174 | Succeeds exactly when the completed prefix is coherent, the arithmetic stays representable and the equity is positive, with exactly the one specified cut; that cut answers its description: daily profit plus start-of-day equity is equity, equity less cash is position times mark, the start of the day is the equity before the UTC midnight |
| RiskCut.DescribesExactly | tools/historical_risk_context.py:130-144 | The description by what the amounts are to each other fits the specified amounts and no others |
| RiskCut.CutExists | tools/historical_risk_context.py:79-174 | There is a cut exactly when the call is coherent and Decimals in the envelope answer the description, the marked position and the loss from the peak among them |
| RiskCut.CutIsUnique | tools/historical_risk_context.py:79-174 | The specification leaves no choice: two cuts that meet it are the same, Decimal by Decimal |
| RiskCut.CutIsCausal | tools/historical_risk_context.py:95-174 | Whether there is a cut and which one it is depends only on the completed prefix and on prices and times through the current episode |
| RiskCut.CutDrawdownIsTight | tools/historical_risk_context.py:133-137 | The drawdown of every cut bounds the true fraction from above, within one quantum |
| RiskCut.CutDrawdownIsAFraction | tools/historical_risk_context.py:133-137 | With equity left the drawdown lies between zero and one, and is zero exactly at the peak, so the risk context never refuses it |
| RiskCut.PeakIsGreatest | tools/historical_risk_context.py:132-132 | The peak is at least every completed equity and is one of the amounts compared |
| RiskCut.Gate.Evaluate | tools/historical_risk_context.py:262-302 | The live evaluation records the cut of the next episode and its verdict, and raises without a change when there is no cut, as on equity that is not positive |
| RiskCut.Gate.RestoreLastCompletedPredecision | tools/historical_risk_context.py:304-343 | After a restart the cut before the last completed episode is rebuilt, unless one is remembered or nothing is completed; it raises without a change when there is no cut |
| RiskCut.RestartRebuildsTheSameCut | tools/historical_risk_context.py:262-343 | Evaluate, complete the episode, restart, even on a stream with another future: the rebuilt cut exists exactly when the live one did and is the same Decimal by Decimal; the verdict is the same as far as the policy resolved at restart decides that cut alike |
| WorkPackages.Search.Visit | tools/baseline.py:62-73 | One visit terminates and marks a package only after all its dependencies; the key a failure names lies on a cycle, or is undefined and depended upon |
| WorkPackages.CheckDependencies | tools/baseline.py:61-76 | Completes for all keys if and only if every dependency is defined and the graph is acyclic, and then the order of marking is topological; otherwise the key named is at fault |
| WorkPackages.TopologicalMeansAcyclic | tools/baseline.py:62-76 | A topological order of all packages rules out cycles and missing dependencies |
| WorkPackages.PositionsFall | tools/baseline.py:62-76 | Along every path of dependencies the positions in the order fall |
| ReleaseScope.BuildEdges | tools/release_scope_mapping.py:266-285 | Refuses exactly when a dependency names an unknown package; otherwise the edges are the DEPENDS_ON relations |
| ReleaseScope.ReachablePackages | tools/release_scope_mapping.py:287-295 | The worklist returns exactly the packages reachable from AutoTrade over DEPENDS_ON relations |
| ReleaseScope.ClosedHoldsReachable | tools/release_scope_mapping.py:287-295 | A set closed under the edges holds everything reachable from its members |
| ReleaseScope.NormalizePackages | tools/release_scope_mapping.py:298-390 | Accepts exactly well-formed packages that share no identifier and no locator, and indexes exactly those with a locator |
| ReleaseScope.PackagesOkMeans | tools/release_scope_mapping.py:298-390 | Well-formed packages: either AutoTrade without a locator, or one locator and a checksum; no identifier and no locator twice |
| ReleaseScope.CollectRights | tools/release_scope_mapping.py:423-444 | The two duplicate checks together mean that no name and version occurs twice |
| ReleaseScope.MatchLocked | tools/release_scope_mapping.py:446-497 | Succeeds exactly when every locked package has rights and matches its SBOM package; repeats are kept once |
| ReleaseScope.CollectExternals | tools/release_scope_mapping.py:502-513 | Refuses exactly a repeated locator |
| ReleaseScope.BuildMapping | tools/release_scope_mapping.py:411-550 | Succeeds exactly on a mappable scope, with each locked package once and the external ones as given |
| ReleaseScope.MappingPartitions | tools/release_scope_mapping.py:411-550 | A mapping partitions the package locators into locked and external ones, all reachable and matched, with locked identities, rights records and locators one to one |
| ReleaseScope.HasApplication | tools/release_scope_mapping.py:223-251 | Whether the SBOM has exactly one package named AutoTrade, with its identifier and without a locator |
| ReleaseScope.MapRelease | tools/release_scope_mapping.py:405-550 | From packages and relations to the mapping: succeeds exactly on a releasable scope, and then AutoTrade reaches every package, each locator is locked or external, never both, and each record has its package with the very name, version, hash and license |
| ReleaseScope.ReleasableMeans | tools/release_scope_mapping.py:405-550 | A releasable scope described with no index and no worklist: one application, known endpoints, well-formed packages all reachable, rights for exactly the locked identities, a matching package for each record, each locator on one side |
| ReleaseScope.PurlTextIsAmbiguous | tools/release_scope_mapping.py:193-194 | Two different packages can have the same locator text |

## Left out

- Win32 and NT calls, `os.stat` fields, drive types and path spelling: only success, failure and the two rules above are modelled.
- Asynchronous exceptions, and failures of `add_note` and of the exception text.
- What a Python file object does on a second close: a close that returns normally is taken as confirmed.
- The native handle of one failing open that the open call itself closes.
- POSIX exclusion across rebinding: it relies on cooperating writers; the POSIX branch is modelled in the lock class only.
- `json.loads`, `float`, and the bounded integer and float token parsers around them, in `strict_json.py` and in `exact_decimal.py`: they would add length and pattern checks.
- The document fields of the SBOM and of its application package other than names, identifiers and locators.
- The document length limit of `strict_json_loads` and `jsonl_bytes_are_blank`.
- Regular expression engines, ZIP, CSV and SQLite: rows, trees and decisions are modelled as parsed.
- Subclasses of `Decimal`, `Fraction`, `int` and `str`: the exact-type checks come before everything modelled here.
- Redaction of diagnostic rows: it is taken to keep the sequence and the previous digest. The content of a sample, the clock and the rotation name are parameters.
- A write torn inside one call: it is a row without its newline, which recovery refuses; the whole-run theorem speaks of crashes between filesystem steps.
- The second reading of the clock, at the check that a recorded download time is not in the future: one time of a collector serves for both readings, and the theorems hold for any.
- Network fetches, checksums of the archive, symlink checks, artifact evidence and private temporary files.
- The status, mode and protocol checks of a simulation, the schema of a decision, and the patterns of digests: each is one flag of the record.
- The normalised weights of the learner and the holdout statistics: they are context-rounded divisions and square roots.
- The extension of every expert to a common prefix, and the campaign's files.
- Risk policy resolution and evaluation: the verdict on a cut is a parameter, resolved anew at a restart. Of the risk context only the checks that the historical call can fail are modelled; its other arguments there are constants or Decimals admitted before.
- The journal store is a sequence that grows at its end.
- Canonical-text checks of names, versions, licenses and digests, and the composition, provenance and reuse parts of `build_mapping`.
- The other checks of `tools/baseline.py`.
