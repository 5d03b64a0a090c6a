# Verified model of the solver's algorithmic core

This project models the parts of the repository whose results cannot be settled by
examples, and proves what they promise for every input:

* the linear algebra of the two-period overlay cipher: Gauss-Jordan elimination modulo the
  alphabet size, the affine key space left by known plaintext, its exact dimension for any
  cribs, the benchmark cases built on it, and the coordinate search and annealing that walk it;
* the bounded candidate archive with family quotas, as a stream, against a ranking of
  everything ever offered, and its file format;
* the replay executor against the independent evidence checker;
* the prime generator, the lazily pruned top-k buffer, and their stable sort;
* the campaign's append-only log under crashes and resumes;
* irregular columnar transposition, and the seed key generator of the periodic columnar
  cipher with its score cache;
* word-length information, rune text, text permutations, the release partition and the
  import closure.

Each module is one component; code that updates state is modelled by methods and classes
proved against functions, whose properties are then lemmas. Scores are real numbers, random
draws are arbitrary values in their documented range (`SeedRandom.Generator` promises only
the ranges), evaluators and scorers are arbitrary functions, candidate ids are numbers, and
payloads are opaque.

## What the proofs found

* `anneal_and_polish` raises when there are no free variables, because it draws a coordinate
  from an empty range; the declared benchmark with periods 5 and 7 has none
  (`CoordinateSearch.AnnealAndPolish`, `BenchmarkLadder.DeclaredLadder`).
* Streaming and batch retention can part when an id is offered under another family, in three
  ways: a better version that has no room is rejected and the old one stays; a better version
  leaves its old family, and a record passed over for its sake is not given the place; a worse
  version of a record passed over is retained under its new family. `ArchiveFamilies` has an
  input of each, and the exact condition for one more offer (`OfferAgreesIff`) and for a whole
  history (`RunAgreesIff`).
* A crash exactly between a record's text and its newline leaves a line that resume accepts
  and the next append spoils (`CampaignRuns.CutIsSafeIff`).
* `rref_mod` accepts any modulus above one, but its inversion error cannot be excluded unless
  the modulus is prime (`ModArith.InvertibleIffPrime`). No crib system triggers it, whatever
  the alphabet: its rows stay edges of the two streams under the elimination, so every pivot
  is 1 or -1 (`KeySpace.CribSpace`, `GraphRows`).
* The key space and its dimension are exact for every alphabet, but `expand` stores keys as
  bytes: it returns every key unchanged iff the alphabet has at most 256 symbols, or there is
  no variable and the one key fits (`KeySpace.ExpandExactIff`, with the failing vector in
  `KeySpace.CastLoses`).
* `invert_permutation` does not notice repeated values, and a permutation of no tokens is
  refused (`TextPermutation.InverseIff`, `TextPermutation.RepeatedUnnoticed`,
  `TextPermutation.NormalizeIff`).

## Model

| member | source | states |
|---|---|---|
| CribGraph.FreeIsComponents | cipher_development/two_period_overlay/keyspace.py:67-91 | for any cribs, any two periods and any alphabet, the number of free variables is the number of connected components of the graph that joins `pos % a` to `a + pos % b` for each known position, less one; equivalently each position that connects two components saves exactly one variable, every other saves none |
| CribGraph.JoinCuts | cipher_development/two_period_overlay/keyspace.py:70-76 | a position between two components divides the set of key differences that the cribs cannot see by exactly the alphabet size |
| CribGraph.LoopKeeps | cipher_development/two_period_overlay/keyspace.py:70-76 | a position whose two entries are already connected changes nothing |
| CribGraph.SameLabel | cipher_development/two_period_overlay/keyspace.py:73-75 | along a component the entries of an unseen difference agree up to the sign of their stream |
| CribGraph.ComponentCount | cipher_development/two_period_overlay/keyspace.py:67-76 | components and joins always add up to the key length |
| CribGraph.AllFreshJoin | cipher_development/two_period_overlay/keyspace.py:69-76 | if the positions can be ordered so that each reaches an entry that none before it reached, every one of them is a join |
| TwoPeriodRank.ContiguousFreeDimension | cipher_development/two_period_overlay/keyspace.py:67-91 | for one stretch of m known positions and coprime periods the free dimension is a + b - 1 - min(m, a + b - 1) |
| TwoPeriodRank.FreeInsideWindow | cipher_development/two_period_overlay/keyspace.py:67-91 | with coprime periods any crib positions inside a window of a + b - 1 positions, contiguous or not, each save one variable |
| TwoPeriodRank.FreeOverWindow | cipher_development/two_period_overlay/keyspace.py:67-91 | covering such a window leaves no free variable |
| TwoPeriodRank.FreeAtLeast | cipher_development/two_period_overlay/keyspace.py:67-91 | no cribs save more variables than they have positions, coprime periods or not |
| TwoPeriodRank.FreeCard | cipher_development/two_period_overlay/keyspace.py:82-91 | there are exactly alphabet^free many key differences that the cribs cannot see |
| TwoPeriodRank.StreamDeterminesKey | cipher_development/two_period_overlay/benchmark.py:117-124 | on any a + b - 1 consecutive positions the overlay stream determines the gauge-fixed key, so equal combined shifts mean equal canonical keys |
| TwoPeriodRank.InvisibleIsZero | cipher_development/two_period_overlay/keyspace.py:70-80 | a gauge-fixed difference that a window of a + b - 1 positions cannot see is zero |
| FineWilf.CoprimePeriods | cipher_development/two_period_overlay/keyspace.py:73-74 | a word of at least a + b - 1 letters with coprime periods a and b is constant |
| BenchmarkLadder.PrimaryCribDimension | cipher_development/two_period_overlay/config.py:136 | with the primary crib alone the dimension is a + b - 1 - min(13, a + b - 1) |
| BenchmarkLadder.DeclaredLadder | cipher_development/two_period_overlay/config.py:136-138 | the dimensions 0, 4, 8, 16 and 30 declared for periods 5/7, 5/13, 9/13, 13/17 and 13/31 are the true ones |
| BenchmarkLadder.DeclaredWithDormouse206 | cipher_development/two_period_overlay/config.py:137-138 | with the second crib at 206 the declared 8 (13/17) and 22 (13/31) are the true ones |
| BenchmarkLadder.DeclaredWithDormouse081 | cipher_development/two_period_overlay/config.py:137-138 | with the second crib at 81, in no common window with the first, the declared 8 (13/17) and 22 (13/31) are the true ones |
| BenchmarkLadder.DeclaredWithBoth | cipher_development/two_period_overlay/config.py:138 | with both extra cribs on periods 13/31 the declared 14 is the true one |
| KeySpace.CribSpace | cipher_development/two_period_overlay/keyspace.py:52-91 | the three length and content errors exactly; for every alphabet, prime or not, a contradiction is the only elimination error, so that for a ciphertext and crib of the right form it succeeds iff some key fits, and it then returns the parametrisation of exactly the fitting keys |
| KeySpace.FitsCribsIff | cipher_development/two_period_overlay/keyspace.py:67-76 | fitting the cribs, said on the 13 runes of the primary crib and on the runes of each additional one where they stand in the ciphertext, is fitting the list of known positions that the rows are built from |
| KeySpace.CribsKnown | cipher_development/two_period_overlay/keyspace.py:67-72 | the listed positions and runes are those of the primary crib and of the additional ones, and no others |
| KeySpace.SystemIsFits | cipher_development/two_period_overlay/keyspace.py:67-81 | a key over the alphabet solves the stacked equations iff the ciphertext deciphers under it to every rune of every crib and B[0] is 0 |
| BenchmarkCase.BuildCase | cipher_development/two_period_overlay/benchmark.py:59-84 | every error has its exact condition: the primary crib, an exact additional crib, a rune the cipher does not take, no fitting key, another dimension than declared; the round trip check and the check that the parametrisation gives the key back never fail, and with exact cribs there is always a key space; a declared benchmark is built from a plaintext iff that has its cribs and consists of runes |
| BenchmarkCase.EncipheredFits | cipher_development/two_period_overlay/benchmark.py:76-79 | the key that a plaintext with the cribs was enciphered with fits them, and moved to the gauge it lies in the key space |
| BenchmarkCase.SpaceHasPlaintext | cipher_development/two_period_overlay/benchmark.py:76-84 | whatever key a plaintext with the cribs was enciphered with, gauged or not, some key of the space deciphers the ciphertext to that plaintext |
| BenchmarkCase.FitsIffDeciphers | cipher_development/two_period_overlay/keyspace.py:70-76 | a key fits the cribs iff deciphering with it shows every rune of every crib at its place, over the alphabet |
| BenchmarkCase.DecryptEncrypt | src/rdp/ciphers/scheduled_stream_lookup_cipher.py:1038-1069 | adding both streams and then subtracting them gives the plaintext back |
| BenchmarkCase.EncryptIs | src/rdp/ciphers/scheduled_stream_lookup_cipher.py:888-896 | enciphering refuses exactly the texts with a symbol outside the runes or the alphabet and those that it would take to a symbol above 28, and otherwise adds both streams at every position |
| BenchmarkCase.KeyReproduced | cipher_development/two_period_overlay/benchmark.py:80-84 | expanding the free entries of the benchmark's key gives the key back |
| BenchmarkCase.SameDimension | cipher_development/two_period_overlay/keyspace.py:82-91 | the dimension is a property of the cribs and not of the parametrisation |
| BenchmarkCase.DeterministicKeyAt | cipher_development/two_period_overlay/keyspace.py:18-21 | entry by entry, 5i + 3 in the first stream and 7i + 11 in the second, whose first entry is 0 |
| BenchmarkLadder.DeclaredDimension | cipher_development/two_period_overlay/config.py:136-138 | each of the ten declared benchmarks has the dimension it declares, on every ciphertext |
| BenchmarkLadder.DeclaredAre | cipher_development/two_period_overlay/config.py:136-138 | the ten declared configurations with their declared dimensions, each of them valid |
| KeySpace.SolveCribs | cipher_development/two_period_overlay/keyspace.py:67-91 | on a ciphertext of the right length either no key fits and the error is the contradiction, or one does and the parametrisation is exact, whatever the alphabet |
| KeySpace.SystemIsGraph | cipher_development/two_period_overlay/keyspace.py:67-80 | every row of a crib system is an edge of the two streams: up to the sign of the second stream a unit row or a difference of two |
| KeySpace.ParametrisationFits | cipher_development/two_period_overlay/keyspace.py:82-106 | for every alphabet the affine points of the vectors over it are exactly the keys that meet every crib and the gauge, one for each vector, which is read back at the free columns |
| KeySpace.ExpandIff | cipher_development/two_period_overlay/keyspace.py:93-110 | on this parametrisation `expand` never fails, so its gauge error cannot arise, and it returns the key of the vector iff every entry of the key is below 256 |
| KeySpace.ExpandFails | cipher_development/two_period_overlay/keyspace.py:98-110 | `expand` fails for a wrong shape of the particular solution, else for one of the basis; what it returns has the key length, entries that are bytes, and 0 at the gauge |
| KeySpace.PointOfUnit | cipher_development/two_period_overlay/keyspace.py:106 | without variables the point is the particular solution, and a single variable adds its column of the basis |
| KeySpace.ExpandExactIff | cipher_development/two_period_overlay/keyspace.py:106-107 | `expand` returns the key of every vector iff the alphabet has at most 256 symbols, or there is no variable and the one key fits into bytes |
| KeySpace.CastLoses | cipher_development/two_period_overlay/keyspace.py:106-107 | on a larger alphabet the vector that starts with 256 expands to a key whose first free entry is 0 |
| KeySpace.UngaugedKeyCovered | cipher_development/two_period_overlay/keyspace.py:77-106 | for every alphabet a key that fits the cribs but not the gauge has the overlay stream of some parametrised key at every position |
| KeySpace.RegaugedOverlay | cipher_development/two_period_overlay/keyspace.py:77-80 | moving a constant from one stream to the other leaves the overlay unchanged |
| KeySpace.SystemMeaning | cipher_development/two_period_overlay/keyspace.py:67-81 | solving the stacked equations is meeting every crib position and the gauge |
| KeySpace.CribRowMeaning | cipher_development/two_period_overlay/keyspace.py:70-76 | one row is one crib position, also where the row is built from a reduced right-hand side |
| KeySpace.CribSystem | cipher_development/two_period_overlay/keyspace.py:67-80 | the nested loops build the crib rows in order and the gauge row last, and a key solves them iff it fits every rune of every crib and the gauge |
| KeySpace.Parametrisation | cipher_development/two_period_overlay/keyspace.py:82-91 | the loops write unit vectors at the free columns and negated coefficients at the pivots |
| AffineSpace.AffineSound | cipher_development/two_period_overlay/keyspace.py:82-106 | every choice of variables gives a solution, and the solution carries those variables |
| AffineSpace.AffineComplete | cipher_development/two_period_overlay/keyspace.py:82-106 | every reduced solution is the point of its own free entries |
| AffineSpace.SolvesByPivots | cipher_development/two_period_overlay/keyspace.py:82-90 | a vector solves the reduced system iff each pivot entry is what its row demands |
| AffineSpace.FreeCount | cipher_development/two_period_overlay/keyspace.py:82 | pivots and free columns together are all columns |
| GraphRows.UnitHasInverse | cipher_development/two_period_overlay/keyspace.py:37-40 | a nonzero entry of an edge-shaped row is 1 or -1, so it has an inverse for every modulus |
| GraphRows.ScaledGraphRow | cipher_development/two_period_overlay/keyspace.py:41 | scaling an edge-shaped row by the inverse of its pivot leaves it edge-shaped |
| GraphRows.CancelledGraphRow | cipher_development/two_period_overlay/keyspace.py:42-44 | clearing a column of one edge-shaped row by another leaves an edge-shaped row, for every modulus |
| Rref.RrefMod | cipher_development/two_period_overlay/keyspace.py:23-50 | the result has exactly the solutions of the input and is in reduced echelon form with increasing unit pivot columns; the inversion error never arises for a prime modulus, nor for any modulus on the rows of a graph, and does arise when the first entry is a nonzero residue without an inverse; a contradiction error means no solution, and success that there is one |
| Rref.PivotColumn | cipher_development/two_period_overlay/keyspace.py:29-46 | one column keeps the solutions and the echelon form; the inversion error means the modulus is not prime |
| Rref.ClearColumn | cipher_development/two_period_overlay/keyspace.py:41-44 | scaling and clearing keep the solutions |
| Rref.ConsistentSolvable | cipher_development/two_period_overlay/keyspace.py:47-50 | a reduced system without a contradictory row has a solution |
| Rref.HasContradiction | cipher_development/two_period_overlay/keyspace.py:47-49 | the closing scan finds a row without coefficients and with a right-hand side iff there is one |
| LinearSystem.ReplaceRow | cipher_development/two_period_overlay/keyspace.py:41-44 | replacing a row by an invertible combination keeps the solutions |
| LinearSystem.SwapRows | cipher_development/two_period_overlay/keyspace.py:35-36 | swapping two rows keeps the solutions |
| ModArith.InvertibleIffPrime | cipher_development/two_period_overlay/keyspace.py:37-40 | every nonzero residue has an inverse exactly when the modulus is prime |
| ModArith.ProperDivisorNotInvertible | cipher_development/two_period_overlay/keyspace.py:37-40 | a proper divisor of the modulus has none: the input on which the inversion error arises |
| CoordinateSearch.ArgMax | cipher_development/two_period_overlay/keyspace.py:145 | the first of the best of the 29 symbols |
| CoordinateSearch.Sweep | cipher_development/two_period_overlay/keyspace.py:138-149 | each coordinate in turn takes its first best symbol if that gains more than 1e-15; one batch of 29 a coordinate; either the sweep improves by more than 1e-15, or it changes nothing and no single-coordinate change beats the state by more than 1e-15 |
| CoordinateSearch.Search | cipher_development/two_period_overlay/keyspace.py:132-152 | the sweeps in sequence, all but the last improving; the reported score is that of the result, it never falls, the evaluation count is exact, and an early exit is a local optimum |
| CoordinateSearch.SweepTakes | cipher_development/two_period_overlay/keyspace.py:139-149 | of the 29 symbols of a coordinate the smallest among the best is taken iff it gains more than 1e-15 |
| CoordinateSearch.SweepDetermined | cipher_development/two_period_overlay/keyspace.py:138-149 | where a sweep ends is determined by its start and order |
| CoordinateSearch.WalkBest | cipher_development/two_period_overlay/keyspace.py:162-183 | the remembered best state lags behind no state of the walk by more than 1e-15, and never behind the start |
| CoordinateSearch.WalkTakes | cipher_development/two_period_overlay/keyspace.py:167-183 | on the scores themselves: a proposal, the drawn coordinate moved to the drawn one of its 28 other symbols, is stood on next iff it scores no less than the current state or is lucky, and else everything stays; the best state gives way to a taken proposal iff that scores more by 1e-15 |
| CoordinateSearch.ProposalsBehind | cipher_development/two_period_overlay/keyspace.py:162-183 | no proposal made so far, taken or not, beats the remembered best state by more than 1e-15 |
| CoordinateSearch.AcceptedCount | cipher_development/two_period_overlay/keyspace.py:162-182 | the counter of accepted proposals is the number of those that score no less or are lucky |
| CoordinateSearch.DownhillCount | cipher_development/two_period_overlay/keyspace.py:162-182 | and the other counter the number of those that score less and are lucky |
| CoordinateSearch.WalkDetermined | cipher_development/two_period_overlay/keyspace.py:162-183 | the random choices determine the walk |
| CoordinateSearch.Propose | cipher_development/two_period_overlay/keyspace.py:167-174 | exactly one coordinate changes, to a different symbol |
| CoordinateSearch.AnnealAndPolish | cipher_development/two_period_overlay/keyspace.py:154-189 | fails exactly without variables; the walk that the choices determine, its counters, and the search from its best state give the result, which scores at least the start, and no state visited and no proposal made, taken or not, beats it by more than 1e-15; the counters are the numbers of proposals that qualify; the reported score, gain and evaluation total are exact |
| ArchiveSelect.SelectLoop | cipher_development/shared/archive.py:258-271 | the loop over counts and selected is the recursive selection |
| ArchiveSelect.SelectIsPick | cipher_development/shared/archive.py:258-271 | filtering by family and then cutting is the same as picking while there is room |
| ArchiveSelect.PickAgain | cipher_development/shared/archive.py:258-271 | selecting twice selects the same |
| ArchiveSelect.PickInsert | cipher_development/shared/archive.py:258-271 | select(select(S) and x) = select(S and x) on ranked lists |
| ArchiveSelect.PickReplaced | cipher_development/shared/archive.py:258-271 | giving a retained record's slot and family place away in advance is the same as replacing it |
| Archive.CandidateArchive.Offer | cipher_development/shared/archive.py:280-307 | the new records, the action, the retained flag, the evicted ids and the size, each in terms of the old records; a known id is left unchanged iff its new decision score is not better than the stored one, and the evicted ids are those of the old records that are gone |
| ArchiveScores.RunOrdered | cipher_development/shared/archive.py:254-260 | the records of an archive stand in the order of their decision scores, descending when higher is better and ascending otherwise, and equal scores by ascending id |
| ArchiveScores.SelectedIff | cipher_development/shared/archive.py:258-271 | a record is selected iff fewer selected records than the capacity have a better score, or an equal one and a smaller id, and fewer of its family than the limit |
| ArchiveScores.RetainedIff | cipher_development/shared/archive.py:273-307 | when each id keeps one family, an archive keeps, of the best offers of all ids, exactly those with that room behind the kept ones |
| ArchiveScores.BestIsBest | cipher_development/shared/archive.py:285-291 | for every scored offer the best offers have one of its id with at least as good a decision score |
| ArchiveScores.RetainsIff | cipher_development/shared/archive.py:284-307 | an offer is reported as retained iff its record is in the archive afterwards, or its id is there already with a score that is no worse |
| ArchiveScores.StatisticsMean | cipher_development/shared/archive.py:309-313 | the statistics report the policy, the size, the number of different families, and the id and decision score of the record that none stands ahead of |
| ArchiveScores.FamilyCountIs | cipher_development/shared/archive.py:262-269 | the count of a family is the number of places in the list that name it |
| Archive.SortPut | cipher_development/shared/archive.py:254-259 | ranking after a dictionary update is inserting into the old ranking without the old version |
| ArchiveStreaming.StreamingEqualsBatch | cipher_development/shared/archive.py:273-307 | when each id keeps one family, the records after any offers are the selection from the best record of each id ever offered |
| ArchiveStreaming.OfferStep | cipher_development/shared/archive.py:280-307 | one offer of a run keeps that equality |
| ArchiveStreaming.RunSettled | cipher_development/shared/archive.py:280-299 | after every offer the records are ranked, distinct and a fixed point of the selection, whatever families are offered |
| ArchiveRuns.OfferEvictsAtMostOne | cipher_development/shared/archive.py:298-303 | an offer evicts at most one record, whatever families the offers name |
| ArchiveRuns.OrderIndependent | cipher_development/shared/archive.py:280-307 | the same offers in any order retain the same ids with the same scores, in the same order |
| ArchiveFamilies.OfferAgreesIff | cipher_development/shared/archive.py:280-307 | one more offer x after a history whose selection the archive holds, families changing or not: it holds the selection again iff x has no score, or its id is new, or x is no better and its old version is selected or x is crowded out, or x is better and its old version is not selected, or that is selected, x has room without it, and nothing passed over so far has room beside the selected records with x in the place of its old version, less the last of its family when that family was full without the old version |
| ArchiveFamilies.UpdatedIsSelected | cipher_development/shared/archive.py:258-299 | a selected record's new version that has room without the old one turns the selection into itself with the version replaced, less the last record of the family when that was full: the state after the offer from the one before |
| ArchiveFamilies.InsertSqueezes | cipher_development/shared/archive.py:258-271 | inserting a record with room into a selection and selecting again keeps all of it but the last record of the inserted one's family when that was full |
| ArchiveFamilies.RunAgreesIff | cipher_development/shared/archive.py:280-307 | streaming agrees with batch after every prefix of a history iff every offer of it meets that condition |
| ArchiveFamilies.SameFamilyAgrees | cipher_development/shared/archive.py:280-307 | an offer under its known family always meets it |
| ArchiveFamilies.SamePickIff | cipher_development/shared/archive.py:258-271 | selecting from a longer ranked list gives the selection from a shorter one iff that selection crowds out everything more |
| ArchiveFamilies.InsertPicked | cipher_development/shared/archive.py:258-271 | a record put into a selection is selected iff fewer than the capacity rank ahead of it, and fewer of its family than the limit |
| ArchiveFamilies.TurnedAway | cipher_development/shared/archive.py:292-297 | a better version that moves to a full family is rejected and the old version stays, which ranking everything would not keep |
| ArchiveFamilies.PlaceNotGivenBack | cipher_development/shared/archive.py:292-299 | a better version leaves its family, and the record that the old version had kept out is missing |
| ArchiveFamilies.WorseVersionRetained | cipher_development/shared/archive.py:285-299 | a worse version of a record that was passed over is retained under a new family |
| ArchiveFile.ReadArchive | cipher_development/shared/archive.py:346-374 | success and each of the six errors exactly: too many records; else a repeated id; else a family above its limit; else a record without the decision score; else records not ranked; else other statistics; the rebuilt records are the file's |
| ArchiveFile.SettledIff | cipher_development/shared/archive.py:350-370 | a list is a fixed point of the selection iff it has no more records than the capacity, distinct ids, no family above its limit, the decision score everywhere, and is ranked |
| ArchiveFile.NextRetainedIff | cipher_development/shared/archive.py:364-368 | once the counts are checked, a replayed record is retained without an eviction iff it has the decision score |
| ArchiveFile.SettledIffReachable | cipher_development/shared/archive.py:315-374 | a list of records is a possible archive content iff it is a ranked fixed point of the selection |
| ArchiveFile.ReplayRebuilds | cipher_development/shared/archive.py:364-370 | offering an archive's records in order rebuilds them, each retained and none evicted |
| ArchiveFile.SameIdsSettled | cipher_development/shared/archive.py:369-370 | the order check on ids alone decides the order of the records |
| ArchiveFile.FamiliesWithinLimit | cipher_development/shared/archive.py:356-363 | accepts iff no family occurs more often than the limit |
| ReplayExecution.ReplayCandidateBatch | cipher_development/shared/replay_execution.py:42-82 | evidence is built iff repeats, tolerances and every candidate's evaluations are in order, and whatever is built passes the independent checker; what passing means is stated by the rows of `EvidenceMeaning` |
| ReplayExecution.ObserveAll | cipher_development/shared/replay_execution.py:48-78 | the accumulated flags are the closed-form ones over all candidates |
| ReplayExecution.ReplayCandidate | cipher_development/shared/replay_execution.py:51-78 | one candidate: an error exactly when its evaluations do not qualify, else an observation the checker accepts |
| ReplayExecution.CompareRepeats | cipher_development/shared/replay_execution.py:61-68 | the nested maximum and tolerance loops compute the checker's maximum and its all-within-tolerance |
| ReplayExecution.CompareStored | cipher_development/shared/replay_execution.py:73-77 | the stored-score delta and verification are the checker's |
| ReplayExecution.MaximumIsDeltas | cipher_development/shared/replay_execution.py:61-66 | any upper bound of the deltas that is attained, or zero, is the maximum in the checker's order |
| ReplayExecution.RankingIds | cipher_development/shared/replay_execution.py:79 | the ranking holds every candidate's id and no other |
| EvidenceMeaning.RankedByScore | cipher_development/shared/replay_execution.py:79 | of two places in the ranking of accepted evidence the earlier one's observed decision score is no lower when higher is better, no higher otherwise, and equal scores stand by ascending id |
| EvidenceMeaning.MaximumDeltaIs | cipher_development/shared/replay_evidence.py:68-79 | the maximum delta is the largest change of any score between the first repeat and a later one, or zero |
| EvidenceMeaning.StoredDeltaIs | cipher_development/shared/replay_evidence.py:189-192 | the stored delta is the largest distance of a repeat's decision score from the stored one |
| EvidenceMeaning.DeterministicIff | cipher_development/shared/replay_evidence.py:172-174 | evidence is deterministic iff every later score is close to the first of its name |
| EvidenceMeaning.StoredVerifiedIff | cipher_development/shared/replay_evidence.py:186-188 | stored scores are verified iff every repeat's decision score is close to the stored one |
| EvidenceMeaning.CloseIff | cipher_development/shared/replay_evidence.py:103-104 | two numbers are close iff they are no further apart than the absolute tolerance, or than the relative one times either of them |
| ReplayEvidence.MeasurementsDetermineEvidence | cipher_development/shared/replay_evidence.py:55-79 | two accepted pieces of evidence with the same measurements are equal: deltas, ranking and flags leave no freedom (checks continue at lines 129-192) |
| Primes.FirstPrimes | solving/solved_lp/08_An_End.py:126-140 | terminates for every n and returns the first n primes in ascending order, with none left out |
| Primes.TrialDivision | solving/solved_lp/08_An_End.py:130-137 | stopping at p * p > candidate decides primality |
| Primes.Euclid | solving/solved_lp/08_An_End.py:126-140 | there is a prime at or above every number |
| Primes.EnoughPrimes | solving/solved_lp/08_An_End.py:126-140 | below some bound there are n primes, for every n |
| Primes.PrimeBySquareRoot | solving/solved_lp/08_An_End.py:132-135 | no prime up to the square root divides: then the candidate is prime |
| TopBuffer.KeepAll | solving/solved_lp/08_An_End.py:266-277 | the pruned buffer, finally sorted and cut, is one stable descending sort of the whole stream, cut |
| TopBuffer.Buffer.KeepTop | solving/solved_lp/08_An_End.py:240-244 | a step keeps the best records of everything offered, and the buffer at most four times the limit |
| TopBuffer.PrunedBest | solving/solved_lp/08_An_End.py:241-244 | the cut list stands for the whole one, whatever arrives later |
| TopBuffer.BestIsStableTop | solving/solved_lp/08_An_End.py:268 | what is kept is the front of a descending, stable rearrangement of everything |
| TopBuffer.KeyLessIff | solving/solved_lp/08_An_End.py:234-255 | sort keys are ordered by their first difference: the smaller number, minus infinity below all others, or the shorter key |
| StableSort.SortStable | solving/solved_lp/08_An_End.py:242 | elements that rank the same keep their order |
| StableSort.SortSorted | solving/solved_lp/08_An_End.py:242 | the sort sorts, for any strict weak order |
| CampaignLog.LogFile.AppendRecord | tools/robustness/cipher_solver_campaign.py:451-456 | an uninterrupted append adds the record's line and nothing else |
| CampaignLog.LogFile.LoadCompletedRecords | tools/robustness/cipher_solver_campaign.py:592-612 | the outcome and the file afterwards, which is a prefix of the file before and unchanged unless repaired |
| CampaignLog.ParseLog | tools/robustness/cipher_solver_campaign.py:593-608 | whole lines in front of any tail are read, and the tail is read as if it stood alone |
| CampaignLog.LoadLog | tools/robustness/cipher_solver_campaign.py:592-612 | whole lines and at most one cut line load as the whole lines, and repair leaves exactly those |
| CampaignLog.LoadMeans | tools/robustness/cipher_solver_campaign.py:592-612 | for any file: it is refused iff a line is bad that repair may not drop; otherwise every line but such a bad last one is read in order, a repeated trial is an error, and exactly the bytes of the lines read are kept |
| CampaignLog.SplitAtReturn | tools/robustness/cipher_solver_campaign.py:593 | a carriage return ends a line, together with a newline that follows it |
| CampaignLog.SplitTotal | tools/robustness/cipher_solver_campaign.py:593-608 | the lines use up the file exactly |
| CampaignRuns.StepKeeps | tools/robustness/cipher_solver_campaign.py:706-740 | every append, skip, resume and crash but the excluded one keeps the log the records of a prefix of the plan and extends it byte for byte |
| CampaignRuns.RunKeeps | tools/robustness/cipher_solver_campaign.py:706-740 | over any run of crashes and resumes every state is consistent, and what was durable earlier is a prefix of what is durable later |
| CampaignRuns.ResumeSucceeds | tools/robustness/cipher_solver_campaign.py:614-623 | a crashed run can always be resumed |
| CampaignRuns.ResumedIsPlanned | tools/robustness/cipher_solver_campaign.py:614-623 | a session that resumes has loaded only records of planned trials, each trial once |
| CampaignRuns.FinishedRun | tools/robustness/cipher_solver_campaign.py:732-740 | a finished session leaves every planned trial in the log exactly once, in plan order |
| CampaignRuns.RunCanFinish | tools/robustness/cipher_solver_campaign.py:614-744 | from every state of every run the campaign can be brought to the end of the plan, by a resume if the machine is down and then by skips and appends alone, whatever the trials record |
| CampaignRuns.CanStep | tools/robustness/cipher_solver_campaign.py:706-740 | a session that is not at the end of the plan can always skip the planned trial or run it |
| CampaignRuns.UnterminatedAccepted | tools/robustness/cipher_solver_campaign.py:592-612 | cut exactly between text and newline, the record is accepted and its line stays open |
| CampaignRuns.GluedRecordsLost | tools/robustness/cipher_solver_campaign.py:592-612 | the next append is glued to it: repair then loses both records, or the file no longer loads |
| CampaignRuns.CutIsSafeIff | tools/robustness/cipher_solver_campaign.py:451-456 | crash, resume, append gives the right file exactly when the cut was not that one |
| JsonText.JsonCodecIsLawful | tools/robustness/cipher_solver_campaign.py:454-456 | printed JSON objects without line breaks meet the laws the log relies on, for any reader that reads printed objects back and accepts only texts of one bracketed object between blanks |
| JsonText.DemandsAreMet | tools/robustness/cipher_solver_campaign.py:598-601 | such a printer and such a reader exist, and the reader skips leading and trailing blanks |
| JsonText.LeadsPrint | tools/robustness/cipher_solver_campaign.py:454 | a printed value leaves the bracket depth where it was and never goes below |
| JsonText.CutDoesNotClose | tools/robustness/cipher_solver_campaign.py:598-601 | a cut object never closes |
| JsonText.GluedDoesNotClose | tools/robustness/cipher_solver_campaign.py:598-601 | two glued objects are not one |
| RepeatingKey.RightToLeftStream | tools/robustness/cipher_solver_campaign.py:167-171 | the reversed and rotated key generates the forward stream read backwards, at every position |
| RepeatingKey.EquivalentIffBackwardStream | tools/robustness/cipher_solver_campaign.py:161-172 | a right-to-left key is accepted iff it generates that stream, once the core shows the whole key |
| RepeatingKey.EquivalentIffForwardStream | tools/robustness/cipher_solver_campaign.py:161-166 | a left-to-right key is accepted iff it generates the forward stream, once the core shows the whole key |
| RepeatingKey.NothingExpected | tools/robustness/cipher_solver_campaign.py:162-164 | without an expected key, or with an empty one, nothing is accepted |
| Columnar.UndoColumnarWithPerm | cipher_development/periodic_columnar_staged/seed_utils_periodic_columnar_sub_then_col.py:71-114 | the two errors exactly; otherwise the slicing and writing loops compute the inverse reading order, every cell once, all slices in bounds |
| Columnar.SliceColumns | cipher_development/periodic_columnar_staged/seed_utils_periodic_columnar_sub_then_col.py:100-105 | the k-th slice is the column perm[k], with its height |
| Columnar.WriteRows | cipher_development/periodic_columnar_staged/seed_utils_periodic_columnar_sub_then_col.py:107-114 | writing row by row fills every position once |
| Columnar.UndoEncrypt | src/rdp/ciphers/periodic_columnar_cipher.py:173-196 | decryption undoes encryption for every text length, ragged last row included, and every permutation |
| Columnar.EncryptUndo | src/rdp/ciphers/periodic_columnar_cipher.py:173-196 | and encryption undoes decryption |
| Columnar.StartTotal | cipher_development/periodic_columnar_staged/seed_utils_periodic_columnar_sub_then_col.py:91-105 | the column lengths, in any reading order, sum to the text length |
| Columnar.ColumnLengthIsHeight | cipher_development/periodic_columnar_staged/seed_utils_periodic_columnar_sub_then_col.py:91-98 | the length formula is the number of rows that reach the column |
| Columnar.CellOf | cipher_development/periodic_columnar_staged/seed_utils_periodic_columnar_sub_then_col.py:100-114 | every ciphertext position belongs to a cell |
| Columnar.NextCell | cipher_development/periodic_columnar_staged/seed_utils_periodic_columnar_sub_then_col.py:107-114 | a row reaches a column iff the position of the cell lies in the text, and the cell holds what belongs there |
| SeedGeneration.GenerateSeedKeys | cipher_development/periodic_columnar_staged/seed_utils_periodic_columnar.py:93-224 | an error exactly when an input check fails, so the closing layout check never raises; else the first keys of the ranked candidates, which are the starts, their refined versions if asked for, and random keys behind, tried until there are enough or all attempts are used: distinct, well formed, best first; no start, no refined key and not the plain frequency analysis key beats the first by the deciding score |
| SeedGeneration.InputErrorIs | cipher_development/periodic_columnar_staged/seed_utils_periodic_columnar.py:240-270 | each error has its exact condition, in the order of the checks |
| SeedGeneration.GrownMeans | cipher_development/periodic_columnar_staged/seed_utils_periodic_columnar.py:178-217 | the rerank scorer decides if there is one, and else the scorer; the starts are refined iff there is a scorer, refining is asked for and has steps, and each refined key scores at least its start |
| SeedGeneration.BaselineByText | cipher_development/periodic_columnar_staged/seed_utils_periodic_columnar.py:327-344 | in the first start, counted on the text: in every phase the symbol that occurs more often, or the smaller one of two equally frequent ones, stands for the earlier symbol of the plaintext order |
| SeedGeneration.CountsAre | cipher_development/periodic_columnar_staged/seed_utils_periodic_columnar.py:327-337 | the counts of a phase are the numbers of positions of the text, or of every period-th one, that hold the symbol |
| SeedGeneration.PlainOrderIs | cipher_development/periodic_columnar_staged/seed_utils_periodic_columnar.py:298-313 | the plaintext order is the given ranks if they are given, and otherwise all symbols by descending probability and then by symbol |
| SeedGeneration.DeliveredOrder | cipher_development/periodic_columnar_staged/seed_utils_periodic_columnar.py:203-217 | the keys come by descending score of the deciding scorer, equal scores by the bytes of the keys |
| SeedGeneration.FirstBeatsAll | cipher_development/periodic_columnar_staged/seed_utils_periodic_columnar.py:203-217 | no start and no refined key beats the first key |
| SeedGeneration.TopDelivered | cipher_development/periodic_columnar_staged/seed_utils_periodic_columnar.py:207-224 | ranking and cutting keep that |
| SeedGeneration.BaselineUnique | cipher_development/periodic_columnar_staged/seed_utils_periodic_columnar.py:340-344 | the frequency analysis key is determined by the text and the symbol order |
| SeedGeneration.PhaseAt | cipher_development/periodic_columnar_staged/seed_utils_periodic_columnar.py:327-332 | the r-th phase is every period-th symbol from the r-th on |
| KeySeeds.SymbolOrder | cipher_development/periodic_columnar_staged/seed_utils_periodic_columnar.py:340-342 | all symbols, by descending weight and then by symbol |
| KeySeeds.AlignmentPerm | cipher_development/periodic_columnar_staged/seed_utils_periodic_columnar.py:340-344 | a permutation that sends the i-th most frequent ciphertext symbol, ties by symbol, to the i-th plaintext symbol |
| KeySeeds.AlignedByCounts | cipher_development/periodic_columnar_staged/seed_utils_periodic_columnar.py:340-344 | of two ciphertext symbols the more frequent one, or the smaller one of two equally frequent ones, is sent to the earlier symbol of the plaintext order |
| KeySeeds.JitterPerm | cipher_development/periodic_columnar_staged/seed_utils_periodic_columnar.py:347-355 | a permutation reached by exactly max(1, n) swaps of different entries |
| KeySeeds.MakeBlockSeeds | cipher_development/periodic_columnar_staged/seed_utils_periodic_columnar.py:358-372 | as many permutations a phase as asked for, at least one: the aligned one first, the i-th after 1 + i / 2 swaps |
| KeySeeds.MakeTailSeeds | cipher_development/periodic_columnar_staged/seed_utils_periodic_columnar.py:375-392 | as many permutations of the columns as asked for, the identity first, the next three after one to three swaps; only [0] for a single column |
| KeySeeds.MakeStartKeys | cipher_development/periodic_columnar_staged/seed_utils_periodic_columnar.py:406-428 | as many starts as asked for, at least one, each put together from one seed of every phase and one tail, the aligned one first; of equal ones the first is returned |
| KeySeeds.UniqueKeys | cipher_development/periodic_columnar_staged/seed_utils_periodic_columnar.py:431-440 | each key once, in the order of first appearance |
| KeySeeds.FirstSeenAt | cipher_development/periodic_columnar_staged/seed_utils_periodic_columnar.py:431-440 | the kept keys stand at increasing places of the list, each where it appears first |
| KeySeeds.PadCandidates | cipher_development/periodic_columnar_staged/seed_utils_periodic_columnar.py:443-469 | the keys so far stay in front, and behind them the new ones among the attempts, until the target is reached or all attempts are used |
| SeedGeneration.RefineAll | cipher_development/periodic_columnar_staged/seed_utils_periodic_columnar.py:178-202 | starts and refined keys, each once in order of first appearance; every refined key is the first of the best of a walk from its start, and scores at least it |
| KeySeeds.CachedScorer.ScoreKey | cipher_development/periodic_columnar_staged/seed_utils_periodic_columnar.py:472-489 | the score is the uncached one, and the cache gains exactly that entry |
| KeySeeds.Propose | cipher_development/periodic_columnar_staged/seed_utils_periodic_columnar.py:521-545 | two different entries of the tail or of one block change places, and the layout stays |
| KeySeeds.RefineKey | cipher_development/periodic_columnar_staged/seed_utils_periodic_columnar.py:492-560 | the walk takes every proposal that is no worse, and a worse one only while hot; the result is the first of the best keys it stood on, and no proposal made, taken or not, beats it; cache entries never change |
| KeySeeds.RankCandidates | cipher_development/periodic_columnar_staged/seed_utils_periodic_columnar.py:563-577 | with or without the cache, the ranking by the uncached scores |
| KeySeeds.AssembleLayout | cipher_development/periodic_columnar_staged/seed_utils_periodic_columnar.py:395-403 | blocks and tail make a key that passes the layout check |
| KeySeeds.SwapInBlock | cipher_development/periodic_columnar_staged/seed_utils_periodic_columnar.py:538-545 | two entries of one block may change places |
| KeySeeds.RankIsWeak | cipher_development/periodic_columnar_staged/seed_utils_periodic_columnar.py:576 | the sort key orders keys |
| KeySeeds.BytesLessIff | cipher_development/periodic_columnar_staged/seed_utils_periodic_columnar.py:576 | equal scores are ordered by the bytes of the keys, low byte first, at their first difference |
| WordLengths.ValidateWli | src/rdp/api/normalize.py:465-492 | accepts iff the length is right and the entries come from word lengths in 1..63 |
| WordLengths.ParsesIffEncodes | src/rdp/api/normalize.py:420-425 | the word lengths behind an accepted sequence are unique |
| WordLengths.WordLengthsFromWli | solving/solved_lp/08_An_End.py:43-50 | recovers the word lengths |
| RuneText.RunesFromIndices | src/rdp/api/normalize.py:290-310 | the printing loop computes the joined words |
| RuneText.ParseRuneWords | src/rdp/api/normalize.py:389-400 | the parsing loop reads the words, or fails at an unknown rune |
| RuneText.SplitAtSpace | src/rdp/api/normalize.py:389-400 | splitting a text at a space gives the words before it and then the words behind it |
| RuneText.JoinSnoc | src/rdp/api/normalize.py:290-310 | printed words stand one space apart |
| RuneText.PrintThenParse | src/rdp/api/normalize.py:290-400 | whatever index data the validator accepts is read back from its own rune text |
| TextPermutation.NormalizeIff | src/rdp/api/normalize.py:557-575 | a permutation is accepted iff it is one and there are tokens |
| TextPermutation.NormalizeRefuses | src/rdp/api/normalize.py:557-575 | and refused for its length, else for a repeated value, else for there being no tokens, else for a value out of range |
| TextPermutation.ApplyIs | src/rdp/api/normalize.py:577-584 | applying fails for a wrong length or an index out of range, and otherwise takes the token at each index, negative ones from the end |
| TextPermutation.Invert | src/rdp/api/normalize.py:586-594 | fails exactly on a value out of range; the last position of a repeated value wins |
| TextPermutation.ApplyInverse | src/rdp/api/normalize.py:577-594 | applying a permutation and then its inverse restores the tokens |
| TextPermutation.InverseApply | src/rdp/api/normalize.py:577-594 | and the other way round |
| TextPermutation.InverseIff | src/rdp/api/normalize.py:586-594 | on values in range the result is an inverse iff nothing is repeated |
| TextPermutation.RepeatedUnnoticed | src/rdp/api/normalize.py:577-594 | for [0, 0] the result [1, 0] is returned, and the second token is lost |
| AssetPartition.PartitionAssets | tools/assets/build_lm_large_release_bundle.py:125-138 | a partition in order into parts within the target or of one asset, and no such partition has fewer parts |
| AssetPartition.NeedsOneMore | tools/assets/build_lm_large_release_bundle.py:130-134 | a row that does not fit the open part costs every partition one part more |
| AssetPartition.Truncate | tools/assets/build_lm_large_release_bundle.py:125-138 | a partition without its last row has no more parts |
| ImportClosure.LocalImportClosure | tools/refresh_two_period_fixture_manifest.py:9-33 | terminates on cycles and repeated entries and returns exactly the files that the filtered imports reach; a missing entry point raises |
| ImportClosure.PushImports | tools/refresh_two_period_fixture_manifest.py:18-32 | one file adds exactly its local imports |
| ImportClosure.LocalIff | tools/refresh_two_period_fixture_manifest.py:27-29 | a module is local iff its name starts with cipher_development |

## Left out

- KeySpace.CribSpace: the ciphertext is what its own cast to bytes leaves, and products are unbounded integers; the 64-bit ones of the source are the same for alphabets below 2^31 divided by the key length. The crib lengths are those of the text, as the benchmark's own construction demands; overlap of cribs is not needed and not assumed.
- BenchmarkCase.BuildCase: the search for the slice of the plaintext, the word-length checks of the cribs and the scorer built at the end are left out.
- KeySpace.Expand: one vector of variables at a time; the batch form repeats it row by row.
- KeySeeds.RefineKey: the acceptance probability is any outcome of a draw; only a positive temperature permits a worse key. Keys are 16-bit in the source, which is exact below 32768 columns.
- CampaignRuns.RunKeeps: the cut between text and newline is excluded; `CampaignRuns.CutIsSafeIff` shows that it must be.
- CampaignLog.LogFile.LoadCompletedRecords: the reader of one line is a parameter with the laws `Lawful`; `JsonText.JsonCodecIsLawful` derives them for printed objects from two demands on a JSON reader, and `JsonText.DemandsAreMet` shows that a reader can meet them.
- WordLengths.WordLengthsFromWli: asks for positive lengths, without which the source's cursor does not advance.
- SeedGeneration.GenerateSeedKeys: word-length arguments and their checks are left out, and the unigram probabilities of a language model are an argument.
- Floating point: rounding, infinities and not-a-number are not modelled; scores and tolerances are real numbers.
- Wall-clock deadlines, subprocesses, git, the network and console output.
- Digests and id hashing, reference-field rejection, JSON snapshots of payloads, and the type checks of dataclass constructors.
- The provenance, recipe and configuration fingerprints that a resume compares.
- The file system: only the log is modelled, as a sequence of bytes; atomic replacement of other files is not.
- `enumerate_column_permutations`, the English transliteration tables and the Latin word parser.
- Syntax errors in imported files, and the search for the repository root, in the import closure.
- Language models, scorers, ciphers other than the columnar step and the overlay of two periodic streams, and the solver engines.
