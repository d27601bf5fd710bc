# table-union: a verified model of the table-union search core

The table-union repository finds data-lake tables that can be unioned with a
query table. It scores pairs of columns (set overlap, word embeddings,
ontology classes), then aligns the query columns one to one with the
columns of each candidate table. The candidates come from locality-sensitive
hash indexes. This project models the sequential, deterministic part of
that code in Dafny and proves what the code promises about it:

- **Greedy one-to-one alignment.** This covers the alignment state of the
  embedding and set-overlap searches, the `alignTables` scans, and the
  matching step of the schema consistency score. The benchmark alignment,
  the embedding and set-overlap searches and the schema score read their
  pairs in descending score order; the opendata `alignTables` reads its rows
  in ascending order of the measure, as its SQL `ORDER BY` returns them,
  and keeps the first fit. A pair is accepted only while neither of its
  columns is used, and a table completes at k pairs.
- **The bounded priority queue** (`TopKQueue`). It keeps the k highest
  priorities pushed.
- **Percentile and score selection**, over reals.
- **String and set helpers.** These cover the column identifiers and domain
  names and their round trips, file names, value classes, tokenisation,
  `unique`, difference and intersection, entity-word matching, the Dice
  coefficient and q-grams.
- **Embedding aggregation.** The token lookup is a map. The vector byte
  encoding is a round trip over 64-bit words.
- **LSH keys and indexes**, in three variants:
  - the simhash forest, with bit-string keys;
  - the minhash forest, with little-endian truncated byte keys, where a
    shorter band's key is a prefix of the longer one's;
  - the cosine LSH, with integer keys.

  Each index has its sorting, insertion and de-duplicated querying.
- **Table ingestion.** This covers `readRaw`, `FromCsv`/`ToCsv`, `FromCSV`,
  `cellToEntity`, the ontology maps, the open-data streams and data files,
  the benchmark pair generation, and the base-table criteria.

Each source file of the core is one Dafny module. The shared modules follow
Go's library semantics:
- `GoStrings`: an ASCII subset of `strings`, `strconv` and `regexp`;
- `Wrappers`: `Result` for a value or a returned error, and `Outcome` for a
  value or a panic.

State that the Go code updates in place is modelled as classes with
`modifies` frames. These are the alignment state, the queue and the LSH
tables. Loops are methods whose `ensures` ties their result to a
specification function, and lemmas prove what the source promises about
those functions.

## Model

| member | source | states |
|---|---|---|
| `BenchAlignment.MeasureList` | benchmarkserver/alignment.go:146-171 | the four measures in the order set, nl, semset, sem that `getAttUnionabilityPair` visits |
| `BenchAlignment.AttUnionabilityPair` | benchmarkserver/alignment.go:146-171 | the pair carries the query and candidate columns and the measure of the largest percentile, the first of equals in visiting order |
| `BenchAlignment.InsertDescending` | benchmarkserver/alignment.go:90-95 | pushing into the batch queue adds exactly that pair (multiset) |
| `BenchAlignment.InsertDescendingSorted` | benchmarkserver/alignment.go:90-95 | pushing keeps the queue in descending (ValueMinus, ValuePlus) order |
| `BenchAlignment.DescendingBatch` | benchmarkserver/alignment.go:85-96 | `Descending` returns every pushed pair (the capacity is the number of column pairs) |
| `BenchAlignment.DescendingBatchSorted` | benchmarkserver/alignment.go:96 | `Descending` returns the pairs best first |
| `BenchAlignment.ColsAppend` | benchmarkserver/alignment.go:102-104 | appending a pair adds exactly its two columns to the used candidate and query sets |
| `BenchAlignment.CandColsSize` | benchmarkserver/alignment.go:114 | a one-to-one alignment uses as many distinct candidate columns as it has pairs |
| `BenchAlignment.RunningProductIsProduct` | benchmarkserver/alignment.go:106-110 | each score is the product of the percentile values of the pairs accepted so far |
| `BenchAlignment.TablePercentiles` | benchmarkserver/alignment.go:111 | one table percentile per running score |
| `BenchAlignment.FillBatch` | benchmarkserver/alignment.go:86-94 | the batch holds exactly the scored pairs of every query/candidate text column whose percentile value is nonzero |
| `BenchAlignment.GreedyScan` | benchmarkserver/alignment.go:96-117 | the accepted pairs are exactly the greedy first fit of the batch in its order (`Greedy`): one-to-one on both sides, drawn from the batch in its order, the first pair of the batch accepted, scores running products; the scan stops at maxC distinct candidate columns or else every batched pair shares a column with an accepted one |
| `BenchAlignment.GreedyOneToOne` | benchmarkserver/alignment.go:97-105 | the greedy first fit is one-to-one on both sides and takes its pairs from the batch |
| `BenchAlignment.GreedyAfterStop` | benchmarkserver/alignment.go:113-116 | once maxC candidate columns are aligned, the later pairs of the batch change nothing |
| `BenchAlignment.GreedyRejected` | benchmarkserver/alignment.go:99-102 | a pair the scan does not take shares a column with a pair taken before it, unless the scan had stopped |
| `BenchAlignment.AcceptOneToOne` | benchmarkserver/alignment.go:98-105 | accepting a pair neither of whose columns is used keeps the alignment one-to-one |
| `BenchAlignment.AlignTables` | benchmarkserver/alignment.go:74-144 | the result of `alignTables`: the alignment is the greedy first fit of the descending batch, one-to-one, drawn from the batch, as long as scores and percentiles, percentiles sorted ascending with bestC one past a largest; a panic exactly when no pair has nonzero percentile |
| `BenchUtil.ToColumnID` | benchmarkserver/util.go:69-72 | the identifier starts with the table id followed by ':' |
| `BenchUtil.FromColumnID` | benchmarkserver/util.go:74-88 | a value exactly when splitting on ':' gives two parts and the second is an integer; the table part holds no ':' |
| `BenchUtil.FromColumnIDOfToColumnID` | benchmarkserver/util.go:69-88 | decoding an encoded column identifier gives back the table and column when the table has no ':' |
| `BenchUtil.ParseFilename` | benchmarkserver/util.go:59-67 | a value exactly when the base name minus its extension is an integer; the table is the directory with domainDir and one '/' removed |
| `BenchUtil.ParseDomainFilename` | benchmarkserver/util.go:59-67 | parsing the file name a domain is stored under gives back its table and column |
| `BenchUtil.IsNumericMatchesPatterns` | benchmarkserver/util.go:299-307 | `isNumeric` accepts exactly `^\d+$` or `^\d+\.\d+$` |
| `BenchUtil.IsTextMatchesPattern` | benchmarkserver/util.go:299-311 | `isText` holds exactly when two letters are adjacent |
| `BenchUtil.NumericIsNotText` | benchmarkserver/util.go:270-275 | a numeric value is never text, so the order of the two tests does not matter |
| `BenchUtil.Class` | benchmarkserver/util.go:268-276 | the class counted is "" exactly when the value is neither numeric nor text |
| `BenchUtil.ClassCountPositive` | benchmarkserver/util.go:268-278 | a class is a key of the counts exactly when some value falls in it |
| `BenchUtil.CountClasses` | benchmarkserver/util.go:268-279 | the counts map holds the seen classes, each with its number of values |
| `BenchUtil.ClassifyAsWritten` | benchmarkserver/util.go:281-290 | "" exactly when no class is seen, otherwise the last seen class in map order |
| `BenchUtil.ClassifyValues` | benchmarkserver/util.go:265-291 | `classifyValues` computes `ClassifyAsWritten` |
| `BenchUtil.ClassifyAsWrittenMissesMajority` | benchmarkserver/util.go:281-290 | on ["1", "1", "ab"] the class reported is "text" though "numeric" is counted twice |
| `BenchUtil.ClassifyValuesFixed` | benchmarkserver/util.go:281-290 | with the maximum updated, the class reported is a most frequent one, "" exactly when none is seen |
| `BenchUtil.EstimateJaccard` | benchmarkserver/util.go:340-348 | the number of agreeing positions below len(query) divided by len(query); a shorter candidate panics |
| `BenchUtil.EstimateJaccardRange` | benchmarkserver/util.go:340-348 | the estimate is in [0, 1], and exactly 1 for identical signatures |
| `BenchUtil.IndexOf` | benchmarkserver/util.go:358-365 | the first position of the value, -1 exactly when it is absent |
| `BenchUtil.GetCardinality` | benchmarkserver/util.go:401-407 | the number of distinct values |
| `BenchUtil.CardinalityBound` | benchmarkserver/util.go:401-407 | the cardinality is at most the length, and at least 1 for a nonempty column |
| `BenchUtil.DefaultTokens` | embserver/util.go:25 | splitting on single spaces gives one more token than there are spaces |
| `BenchUtil.TokenizedValues` | benchmarkserver/util.go:380-399 | the emitted token lists are `Tokenized` of the values |
| `BenchUtil.TokenizedShape` | benchmarkserver/util.go:380-399 | each emitted list has at most 5 tokens, each the transform of a token of a transformed value, and no value of at most 5 tokens is dropped |
| `CosineLsh.BinValueInjective` | embserver/cosinelsh.go:177-198 | two bit strings of one length with one value are equal |
| `CosineLsh.BandWordFits` | embserver/cosinelsh.go:177-198 | a band of 1 to 64 bits always has a key |
| `CosineLsh.BandWordFails` | embserver/cosinelsh.go:177-198 | an empty band or one that is not all bits has no key |
| `CosineLsh.BandWordInjective` | embserver/cosinelsh.go:177-198 | distinct bands of one width have distinct keys |
| `CosineLsh.ToBasicHashTableKeys` | embserver/cosinelsh.go:177-198 | l keys, key i that of band i and zero past the last band; a panic exactly when a band has no key or there are more bands than l |
| `CosineLsh.WordsExist` | embserver/cosinelsh.go:93-104 | a bit signature sliced into l bands of 1 to 64 bits has a key for every band |
| `CosineLsh.WordsMissing` | embserver/cosinelsh.go:93-104 | empty bands or a non-bit value leave some band without a key |
| `CosineLsh.Append` | embserver/cosinelsh.go:132-150 | the id is appended to the bucket of its key, and no other bucket changes |
| `CosineLsh.CandidatesMembers` | embserver/cosinelsh.go:154-175 | an id is a candidate exactly when some table holds it under the query's key for that table |
| `CosineLsh.InsertedCandidates` | embserver/cosinelsh.go:132-175 | after an insert a query finds what it found before plus the new id exactly when it shares a key with it in some table |
| `CosineLsh.CosineLsh.constructor` | embserver/cosinelsh.go:116-127 | m * l hyperplanes and l empty tables |
| `CosineLsh.CosineLsh.Keys` | embserver/cosinelsh.go:93-104 | the key of each band of the signature, a panic exactly when some band has none |
| `CosineLsh.CosineLsh.Insert` | embserver/cosinelsh.go:132-150 | the id is appended to its bucket in every table; a panic leaves the tables unchanged |
| `CosineLsh.CosineLsh.Query` | embserver/cosinelsh.go:154-175 | every id of the selected buckets, each exactly once |
| `EmbSearch.ItoaInjective` | benchmarkserver/emb_search.go:141-142 | keying the column counters by `strconv.Itoa` of the index is keying them by the index |
| `EmbSearch.GreedyIsOneToOne` | benchmarkserver/emb_search.go:167-172 | pairs accepted only when neither column is used are one-to-one on both sides |
| `EmbSearch.OneToOnePermutation` | benchmarkserver/emb_search.go:146-156 | reading the accepted pairs back in queue order keeps them one-to-one |
| `EmbSearch.SeenBetterMeansShared` | benchmarkserver/emb_search.go:141-142 | the counters hold a column exactly when an accepted pair shares it |
| `EmbSearch.AcceptKeepsTables` | benchmarkserver/emb_search.go:167-175 | accepting a pair of an uncompleted table whose columns are unused keeps every table one-to-one with at most k pairs, completing it at k |
| `EmbSearch.EmitKeepsResults` | benchmarkserver/emb_search.go:175-185 | the result emitted for a newly completed table holds its k pairs in descending order with N = the number of completed tables |
| `EmbSearch.StateResults` | benchmarkserver/emb_search.go:175-185 | every emitted result is one-to-one, of k pairs, from the stream, in descending order, with N counting up from 1 |
| `EmbSearch.Alignment.constructor` | benchmarkserver/emb_search.go:113-123 | `initAlignment`: no completed table, no table state, no result |
| `EmbSearch.Alignment.HasCompleted` | benchmarkserver/emb_search.go:125-127 | true exactly when the table is completed |
| `EmbSearch.Alignment.HasPartialTable` | benchmarkserver/emb_search.go:129-132 | true exactly when the table has state |
| `EmbSearch.Alignment.HasSeenBetter` | benchmarkserver/emb_search.go:134-143 | false without table state, true for a completed table, otherwise true exactly when the pair shares a column with an accepted pair |
| `EmbSearch.Alignment.Get` | benchmarkserver/emb_search.go:146-156 | panics unless the table is completed; otherwise its queue's pairs, drained, in descending priority |
| `EmbSearch.Alignment.InitTable` | benchmarkserver/emb_search.go:161-165 | empty counters and an empty queue for a new table |
| `EmbSearch.Alignment.Accept` | benchmarkserver/emb_search.go:167-186 | the pair is added to its table; the table completes exactly when it reaches k pairs; earlier results are kept |
| `EmbSearch.Alignment.Emit` | benchmarkserver/emb_search.go:175-185 | one more result, for the table just completed |
| `EmbSearch.Alignment.ProcessPairs` | benchmarkserver/emb_search.go:158-192 | the new alignment state and emitted table ids are `Drain` of the old state over the batch in descending priority: each pair of an uncompleted table sharing no column with its accepted pairs is taken, a table completing at k emits once, and the drain stops as soon as n tables are completed; returns true exactly then |
| `EmbSearch.Alignment.ProcessOne` | benchmarkserver/emb_search.go:160-186 | one pair: taken exactly when its table is not completed and it shares no column with that table's accepted pairs; the new state is `Step` of the old |
| `EmbSearch.BatchesAppend` | benchmarkserver/emb_search.go:212-226 | batches are full except possibly the last, and hold only admitted pairs |
| `EmbSearch.QueryOrderAll` | benchmarkserver/emb_search.go:194-235 | the pair stream cut into batches of admitted pairs (uncompleted table, nonzero cosine, finite statistics), each full but the last; the results are what draining those batches in descending order from the empty state emits, table ids in order; the query stops exactly when n tables are completed or the stream is exhausted, with nothing admitted left over |
| `EmbSearch.BatchedAppend` | benchmarkserver/emb_search.go:206-226 | closing a batch at a stream position keeps the cut consistent and drains one more batch |
| `EmbSearch.QueryStep` | benchmarkserver/emb_search.go:206-229 | one pair of the stream: fed to the batch unless its table is completed, and the batch drained when full |
| `EmbSearch.QueryBatch` | benchmarkserver/emb_search.go:222-228 | a full batch drained in descending order into the alignment; finished exactly when n tables are completed |
| `EmbSearch.QueryRest` | benchmarkserver/emb_search.go:231-233 | the last, partial batch is drained after the stream ends |
| `EmbSearch.QueryLast` | benchmarkserver/emb_search.go:231-233 | a nonempty last batch is drained, read in descending order, as one more batch of the cut |
| `EmbSearch.QueryLoop` | benchmarkserver/emb_search.go:206-229 | the loop over the stream keeps the alignment equal to the drain of the batches cut so far |
| `EmbUtil.GetTableColumnIndexFromDomainName` | embserver/util.go:192-200 | a value exactly when there is a ':' and the text after the first one up to the next is an integer |
| `EmbUtil.DomainNameRoundTrip` | embserver/util.go:172-200 | `getTableColumnIndexFromDomainName` inverts `getDomainName` for a table without ':' |
| `EmbUtil.DomainNameIgnoresRest` | embserver/util.go:192-200 | text after a second ':' does not change the result |
| `EmbUtil.LowerSet` | embserver/util.go:106-112 | the set holds only lowercased values and is no larger than the domain |
| `EmbUtil.LowerSetMembers` | embserver/util.go:106-112 | a value is in the set exactly when some domain value lowercases to it |
| `EmbUtil.JaccardRange` | embserver/util.go:114-120 | Jaccard is in [0, 1], NaN exactly when both domains are empty, and 1 exactly when the lowercased sets are equal |
| `EmbUtil.ContainmentRange` | embserver/util.go:122-127 | containment is in [0, 1], NaN exactly when the first domain is empty, and 1 exactly when the first lowercased set is inside the second |
| `EmbUtil.JaccardBelowContainment` | embserver/util.go:114-127 | Jaccard is symmetric and never above containment |
| `EmbUtil.SimilarityExample` | embserver/util_test.go:5-19 | Jaccard({a,a,a,b}, {B,c,c,d}) is 0.25 and containment is 0.5 |
| `EmbUtil.Contains` | embserver/util.go:217-224 | true exactly when the value occurs in the list |
| `Embedding.VecAddComm` | embedding/embedding.go:129-136 | componentwise addition is commutative |
| `Embedding.TotalAppend` | embedding/embedding.go:78-100 | the sum of two lists of vectors is the sum of their sums |
| `Embedding.TotalPermutation` | embedding/embedding.go:20-43 | the sum of vectors does not depend on their order |
| `Embedding.TotalCopies` | embedding/fasttext.go:105-127 | the sum of n copies of u is u scaled by n |
| `Embedding.Add` | embedding/embedding.go:129-136 | `add`: a length mismatch panics and leaves dst unchanged; otherwise dst becomes the componentwise sum and src is unchanged |
| `Embedding.ScaleInPlace` | embedding/fasttext.go:115-119 | each component of the vector is multiplied by the value's frequency |
| `Embedding.FoundEmpty` | embedding/embedding.go:78-100 | no vector is found exactly when no token is in the store |
| `Embedding.GetValueEmb` | embedding/embedding.go:78-100 | fails exactly when no token has a vector, otherwise the componentwise sum of the found vectors |
| `Embedding.Tokenize` | embedding/fasttext.go:265-272 | transFun applied to the value, tokenFun to the result, then transFun to each token |
| `Embedding.TokenizedValues` | embedding/embedding.go:103-127 | the emitted lists are the token lists of the distinct transformed values of at most 5 tokens |
| `Embedding.DistinctTokenizedBound` | embedding/embedding.go:103-127 | at most one list per distinct transformed value, each of at most 5 tokens |
| `Embedding.GetDomainEmbAve` | embedding/embedding.go:20-43 | the average of the embeddings of the distinct values that have one, or ErrNoEmbFound when none has |
| `Embedding.SumValueEmbs` | embedding/embedding.go:24-37 | the summing loop yields the sum of the value embeddings found and their count |
| `Embedding.ValueVecsEmpty` | embedding/embedding.go:38-40 | a column fails to embed exactly when no distinct value has a token in the store |
| `Embedding.AverageOfCopies` | embedding/embedding.go:20-43 | when every value found embeds to the same u, the average is u |
| `Embedding.GetDomainEmbSum` | embedding/fasttext.go:105-127 | the sum of the frequency-scaled embeddings of the values that have one, or ErrNoEmbFound when none has |
| `Embedding.MultVector` | embedding/fasttext.go:222-228 | as written: every component is divided by s |
| `Embedding.MultVectorFixed` | embedding/fasttext.go:222-228 | corrected: every component is multiplied by s |
| `Embedding.GetDomainEmbMeanAsWritten` | embedding/fasttext.go:130-155 | as written: the sum divided by 1/n, that is the sum times n |
| `Embedding.GetDomainEmbMeanFixed` | embedding/fasttext.go:130-155 | corrected: the sum times 1/n |
| `Embedding.MeanOfCopies` | embedding/fasttext.go:130-155 | with the correction, when every value found embeds to u the mean is u |
| `Embedding.MeanAsWrittenExample` | embedding/fasttext.go:150-153 | one value of frequency 2 and vector [1]: the mean as written is [4], the corrected mean [1] |
| `Embedding.BigEndianRoundTrip` | embedding/embedding.go:138-158 | the big-endian bytes of a word read back as that word |
| `Embedding.WordRoundTrip` | embedding/embedding.go:138-158 | the 8 bytes written for a float64 read back as its bit pattern, in either byte order |
| `Embedding.DecodeEncode` | embedding/embedding.go:138-158 | `BytesToVec(VecToBytes(v)) == v` |
| `Embedding.VecToBytes` | embedding/embedding.go:138-144 | 8 bytes per component, component i at bytes 8i to 8i+8 |
| `Embedding.BytesToVec` | embedding/embedding.go:146-158 | len(data)/8 components, component i decoded from bytes 8i to 8i+8; the read never fails |
| `JaccardSearch.Wrap` | benchmarkserver/jaccard_search.go:255 | int64 multiplication: the exact product when it fits, and equal to it modulo 2^64 |
| `JaccardSearch.Quo` | benchmarkserver/jaccard_search.go:257 | int64 division by a positive divisor truncates toward zero |
| `JaccardSearch.BinomAbove` | benchmarkserver/jaccard_search.go:251-253 | C(n, k) is 0 for k > n |
| `JaccardSearch.Absorb` | benchmarkserver/jaccard_search.go:254-258 | k C(n, k) = (n - k + 1) C(n, k - 1) |
| `JaccardSearch.StepExact` | benchmarkserver/jaccard_search.go:254-258 | every division of the loop is exact and yields the next binomial coefficient |
| `JaccardSearch.ExactStep` | benchmarkserver/jaccard_search.go:254-258 | without overflow, one wrapped multiplication and truncating division reach C(n, i) from C(n, i - 1) |
| `JaccardSearch.Combination` | benchmarkserver/jaccard_search.go:243-260 | 1 for k = 0, 0 for k > n, 1 for negative k, and C(n, k) for 0 <= k <= n when no product overflows |
| `LshForest.LessTrichotomy` | simhashlsh/lshforest.go:34-49 | the byte order of hash keys is a strict total order |
| `LshForest.PrefixMonotone` | simhashlsh/lshforest.go:236-238 | sorting by hash key also sorts by every hash-key prefix |
| `LshForest.InsertBucketSorted` | simhashlsh/lshforest.go:195 | inserting a bucket keeps a table sorted by hash key |
| `LshForest.SortBuckets` | simhashlsh/lshforest.go:195 | `sort.Sort`: the buckets sorted by hash key, a permutation of the input |
| `LshForest.IndexTable` | simhashlsh/lshforest.go:179-204 | one table's `Index`: sorted, holding exactly its old buckets and one bucket per entry of the bootstrapping map |
| `LshForest.MatchingMembers` | simhashlsh/lshforest.go:236-248 | a key is found exactly when it is in a bucket whose n-byte prefix equals the query key |
| `LshForest.MatchingShorter` | simhashlsh/lshforest.go:223-248 | a key found with a prefix of n bytes is also found with any shorter prefix |
| `LshForest.SearchFirst` | simhashlsh/lshforest.go:236-238 | `sort.Search`: every bucket before the position has its prefix below the key, none after it |
| `LshForest.Probe` | simhashlsh/lshforest.go:234-248 | a table's probe yields exactly the keys of its matching buckets |
| `LshForest.AddKey` | simhashlsh/lshforest.go:165-172 | the key is appended under its hash key, the bucket created when absent; nothing else changes |
| `LshForest.Dedup` | simhashlsh/lshforest.go:255-261 | the keys emitted are each emitted once, and exactly the keys probed |
| `LshForest.EmitUnseen` | simhashlsh/lshforest.go:255-261 | the emitting loop with its `seens` map emits exactly the first occurrence of each key |
| `LshForest.AddToTables` | simhashlsh/lshforest.go:158-176 | `Add`: map i gains the key under hash key i |
| `LshForest.IndexAll` | simhashlsh/lshforest.go:179-204 | `Index` on every table: each sorted and holding its old buckets plus its map's buckets |
| `MinhashLsh.KeyBytes` | minhashlsh/lshforest.go:21-31 | a key holds hashValueSize bytes per signature value |
| `MinhashLsh.KeyPrefix` | minhashlsh/lshforest.go:21-31 | the key of the first K values is the first size*K bytes of the key |
| `MinhashLsh.LittleEndianRoundTrip` | minhashlsh/lshforest.go:25-28 | the n little-endian bytes of w read back as w modulo 256^n |
| `MinhashLsh.TrimmedValue` | minhashlsh/lshforest.go:25-28 | the bytes a value contributes to a key hold the value trimmed to its size lowest bytes |
| `MinhashLsh.KeyBytesAt` | minhashlsh/lshforest.go:25-28 | value i contributes bytes size*i to size*i+size of the key |
| `MinhashLsh.KeyDetermines` | minhashlsh/lshforest.go:21-31 | two signatures with one key agree on every value modulo 256^size |
| `MinhashLsh.HashKeyFunc` | minhashlsh/lshforest.go:21-31 | the key the generated function writes is `Key(sig, size)` |
| `MinhashLsh.BandsFitLength` | minhashlsh/lshforest.go:166-187 | all l bands of k values fit exactly when the signature holds l*k values |
| `MinhashLsh.BandKeyPrefix` | minhashlsh/lshforest.go:231-234 | a band key cut to fewer values is a prefix of the longer key |
| `MinhashLsh.PairRoundMembers` | minhashlsh/lshforest.go:254-292 | a round finds (p, key) exactly when some table found key for query p |
| `MinhashLsh.RoundAtMembers` | minhashlsh/lshforest.go:219-251 | round K finds (p, key) exactly when key is in a bucket of some table i whose hash key starts with band key i of query p cut to K values |
| `MinhashLsh.RoundsNest` | minhashlsh/lshforest.go:219-251 | a pair found by round K is found again by every later round |
| `MinhashLsh.RoundsFindRoundOne` | minhashlsh/lshforest.go:219-251 | all rounds together find what the last round K = 1 finds |
| `MinhashLsh.QueryMembers` | minhashlsh/lshforest.go:219-251 | `query` emits each pair once, and (p, key) exactly when a bucket of table i with the first band value of query p holds key |
| `MinhashLsh.ProbeTable` | minhashlsh/lshforest.go:254-292 | probing one table yields, query by query, the keys of the matching buckets |
| `MinhashLsh.ProbePairs` | minhashlsh/lshforest.go:254-292 | `probe`: every table in turn, each with every query |
| `MinhashLsh.SignatureKeys` | minhashlsh/lshforest.go:229-235 | the band keys of a query, a panic exactly when a band runs past the end of the signature |
| `MinhashLsh.QueryRound` | minhashlsh/lshforest.go:226-243 | one round: unseen pairs emitted, a panic exactly for a short signature at the first round |
| `MinhashLsh.QueryRounds` | minhashlsh/lshforest.go:219-251 | the rounds k down to 1 emit the deduplicated pairs of all rounds; a panic exactly for a signature shorter than l*k |
| `MinhashLsh.MinhashLSH.constructor` | minhashlsh/lshforest.go:125-143 | l empty tables and l empty bootstrapping maps |
| `MinhashLsh.MinhashLSH.Add` | minhashlsh/lshforest.go:166-187 | the key appended under band key i in map i; a panic exactly for a signature shorter than l*k, changing nothing |
| `MinhashLsh.MinhashLSH.Index` | minhashlsh/lshforest.go:190-213 | every table gains its map's buckets and is sorted; the maps are emptied |
| `MinhashLsh.MinhashLSH.Query` | minhashlsh/lshforest.go:219-251 | the deduplicated pairs of rounds k down to 1; a panic exactly for a short query signature |
| `Ontology.LineLink` | ontology/ontology.go:71-73 | a line of fewer than four fields panics; otherwise fields 2 and 4 of the lower-cased line, stripped of '<' and '>' |
| `Ontology.LineOfWords` | ontology/ontology.go:71-73 | a tab-separated line of lower-case words links its child, stripped, to its parent, stripped |
| `Ontology.LinksOf` | ontology/ontology.go:70-80 | one link per line, in order |
| `Ontology.ParentsOfConcat` | ontology/ontology.go:74-78 | the types of an entity in concatenated lines are those of each part in turn, repeats kept |
| `Ontology.EntityTypesMembers` | ontology/ontology.go:65-82 | the entities of the map are those the lines name, each with exactly the types the lines give it |
| `Ontology.ReadEntityType` | ontology/ontology.go:65-82 | panics without a line or at a line of fewer than four fields; otherwise maps each entity of the lines after the first to all its types, in order |
| `Ontology.TaxonomyMembers` | ontology/ontology.go:113-132 | the classes are the children the lines name; each list has no repeats and holds exactly the parents the lines give |
| `Ontology.TaxonomySnoc` | ontology/ontology.go:121-129 | one more line appends its parent to its child's list unless it is there |
| `Ontology.AddLink` | ontology/ontology.go:98-106 | the parent is appended unless listed; `changed` is true exactly when the map changed |
| `Ontology.ReadTaxonomy` | ontology/ontology.go:113-132 | panics without a line or at a short line; otherwise each class to its direct parents, each once |
| `Ontology.FlattenPass` | ontology/ontology.go:93-108 | from the empty map a pass builds the taxonomy and changes it iff there is a line; from the taxonomy it changes nothing |
| `Ontology.FlattenTaxonomy` | ontology/ontology.go:84-110 | as written the result is exactly the map `readTaxonomy` builds |
| `Ontology.FlattenMissesGrandparent` | ontology/ontology.go:84-110 | with links a to b and b to c, the flattened list of a is only [b], though the comment promises all ancestors |
| `Ontology.FlattenClosure` | ontology/ontology.go:84-110 | corrected: passes until nothing changes leave each class listing exactly its ancestor classes, each once |
| `Ontology.ClosureReachesGrandparent` | ontology/ontology.go:84 | the corrected closure lists c for a on the links a to b and b to c |
| `Ontology.AddMissing` | ontology/ontology.go:140-147 | appending the missing elements keeps a list free of repeats and adds exactly the missing ones |
| `Ontology.AncestorsOf` | ontology/ontology.go:136-148 | as written: no repeats, every type present, only types and parents of types, empty exactly for no types |
| `Ontology.AncestorsComplete` | ontology/ontology.go:136-148 | when no type is a parent of another, every parent of every type is listed |
| `Ontology.AncestorsMissParent` | ontology/ontology.go:139-147 | types t1, t2 with t2 a parent of t1 and t3 a parent of t2 give only [t1, t2] |
| `Ontology.AncestorsIntended` | ontology/ontology.go:134-153 | corrected: every type and every parent of every type, each once |
| `Ontology.EntityAncestors` | ontology/ontology.go:137-148 | the loop over one entity's types computes `AncestorsOf` |
| `Ontology.EntityToAncestors` | ontology/ontology.go:134-153 | each entity mapped to the ancestors of its types |
| `OntWikiTable.CellToEntity` | table/ontwikitable.go:117-126 | "" without a link prefix; otherwise the text after the first prefix up to the next '"', and a panic when no '"' follows |
| `OntWikiTable.LinkEntity` | table/ontwikitable.go:117-126 | a cell whose first link prefix is followed by a name and '"' yields that name |
| `OntWikiTable.TransposeOnt` | table/ontwikitable.go:43-52 | cell j of row i becomes the entity at cell i of column j; a short row or an unclosed link panics |
| `OntWikiTable.ReadRawOnt` | table/ontwikitable.go:24-57 | the error cases of `readRaw`, then the last header row as wide as the first row and the transposed entities |
| `Sarma.CountBigrams` | opendata/sarma.go:758-763 | the counts kept are the multiset of the bigrams of a and the denominator their number |
| `Sarma.Dice` | opendata/sarma.go:755-771 | the coefficient is 2 * hits / (bigrams of a + bigrams of b), a hit being any bigram of b present among those of a |
| `Sarma.DiceAsWrittenSelf` | opendata/sarma_test.go:8-15 | a label of at least two characters compared with itself scores 1 |
| `Sarma.DiceAsWrittenIgnoresCase` | opendata/sarma.go:756-757 | the coefficient does not depend on the case of either label |
| `Sarma.DiceAsWrittenShort` | opendata/sarma.go:770 | NaN exactly when neither label has a bigram |
| `Sarma.DiceAsWrittenAboveOne` | opendata/sarma.go:764-770 | dice("aa", "aaa") is 4/3, outside [0, 1] |
| `Sarma.DiceFixed` | opendata/sarma.go:755-771 | corrected: each hit consumes one count of the bigram it found |
| `Sarma.DiceFixedInUnitInterval` | opendata/sarma.go:755-771 | corrected: NaN exactly when neither label has a bigram, otherwise within [0, 1] |
| `Sarma.DiceFixedSelf` | opendata/sarma_test.go:8-15 | corrected: a label compared with itself still scores 1 |
| `Sarma.DiceFixedExample` | opendata/sarma.go:764-770 | corrected: dice("aa", "aaa") is 2/3 |
| `Sarma.TokenizeAnnotation` | opendata/sarma.go:747-753 | one more word than cutting characters; words hold only a-z and spaces; joining the words back with the cut characters between them gives the lowered annotation, so the words are the kept characters in order |
| `Sarma.TokenizeAnnotationUnique` | opendata/sarma.go:747-753 | any words of a-z and spaces that rejoin with the cut characters to the lowered annotation are the split itself |
| `GoStrings.SplitWhereRejoin` | opendata/sarma.go:752 | splitting at the matching characters and rejoining with them gives the text back |
| `GoStrings.InterleaveUnique` | opendata/sarma.go:752 | two splits free of matching characters that rejoin with the same cuts to the same text are equal |
| `Sarma.SortInts` | opendata/sarma.go:828 | ascending, and a permutation of its input |
| `Sarma.CountClasses` | opendata/sarma.go:802-816 | each class maps to the number of times it is listed for the entities, looked up lower-cased |
| `Sarma.GroupByCount` | opendata/sarma.go:817-826 | every class filed under its count, each count listed once |
| `Sarma.EmitTop` | opendata/sarma.go:829-838 | the classes emitted are distinct, in non-increasing count, at most 10, and none left out is counted more than one emitted |
| `Sarma.AnnotateEntities` | opendata/sarma.go:800-839 | the top classes of the entities: distinct, at most ten, by non-increasing count, none omitted that outranks one kept |
| `Sarma.GetOntDomain` | opendata/sarma.go:773-798 | the distinct values once each, the values no entity annotates once each and in order, and the annotations, as a multiset, exactly the entities found for each distinct value |
| `Sarma.FoundMembers` | opendata/sarma.go:783-791 | an entity is annotated exactly when some distinct value's words name it, at most once per value |
| `Sarma.AllPairsSize` | opendata/sarma.go:362-388 | the pairs pushed number len(Q) * len(C) |
| `Sarma.AllPairsFrom` | opendata/sarma.go:365-388 | every pair pushed joins a query column with a candidate column and carries their matching score |
| `Sarma.PushAllPairs` | opendata/sarma.go:365-388 | pushes every column pair, row by row, with its matching score, keeping the queue's invariant |
| `Sarma.MatchAsWritten` | opendata/sarma.go:390-404 | the matched query columns and the weight are those of the greedy matching as written, which checks the candidate index against the matched query columns |
| `Sarma.SchemaConsistency` | opendata/sarma.go:347-411 | a panic exactly when Q or C is empty (readEntities indexes column 0); otherwise pairs popped highest score first, a permutation of all pairs, and the score is W over len(Q) + len(C) - matches, 0 without a match |
| `Sarma.KeptOneToOneFacts` | opendata/sarma.go:390-404 | corrected matching: each query and candidate column used at most once, weight at most one per pair |
| `Sarma.OneToOneScoreInUnitInterval` | opendata/sarma.go:406-410 | corrected: with scores in [0, 1] the schema consistency is a number within [0, 1] |
| `Sarma.SchemaAsWrittenAboveOne` | opendata/sarma.go:397-410 | two query columns matching one candidate column give 1.5 as written; the corrected matching gives 0.5 |
| `Search.MkDomain` | search/search.go:282-289 | the domain is exactly the set of transformed values, no larger than the column |
| `Search.FlatMapPermutation` | search/search.go:244-261 | visiting the words in another order gives a permutation of the part vectors |
| `Search.GetEmbOrderFree` | search/search.go:244 | the embedding of a column does not depend on the order the domain map is visited in |
| `Search.AddParts` | search/search.go:245-260 | after one word, the vector holds the sum of all part vectors found so far, and exists exactly when one was found |
| `Search.GetEmb` | search/search.go:241-266 | the sum of the vectors of every part of every distinct transformed value; ErrNoEmbFound exactly when no part has a vector |
| `Search.NoPartFound` | search/search.go:262-264 | no part vector found exactly when no part of any word is in the store |
| `Search.DotSymmetric` | search/search.go:291-300 | the dot product is symmetric |
| `Search.DotAdd` | search/search.go:291-300 | the dot product distributes over vector addition |
| `Search.DotProduct` | search/search.go:291-300 | panics exactly on a length mismatch, otherwise the sum of the products |
| `Search.PushEntries` | search/search.go:229-232 | pushes each entry with its dot product against the query, keeping the queue's invariant |
| `Search.PopAll` | search/search.go:233-237 | the popped items, filled from the end, are a permutation of the queue's items in non-increasing score |
| `Search.TopKEntries` | search/search.go:228-239 | a panic exactly when some entry's vector differs in length from the query; otherwise min(k, n) entries of the index, a sub-multiset, in non-increasing dot product, none left out scoring above one returned |
| `SimhashLsh.Hash` | simhashlsh/lshforest.go:267-278 | l bands, band i being the values i*k to i*k+k-1 of the signature |
| `SimhashLsh.BandsCover` | simhashlsh/lshforest.go:267-278 | the bands one after another are the first l*k values of the signature |
| `SimhashLsh.BitString` | simhashlsh/lshforest.go:286-293 | a band of bits written as '0' and '1', one character per bit |
| `SimhashLsh.BitsOfBitString` | simhashlsh/lshforest.go:286-293 | writing a band loses nothing, so distinct bands have distinct keys |
| `SimhashLsh.ToBasicHashTableKeys` | simhashlsh/lshforest.go:280-297 | panics exactly on a value other than 0 or 1 or on more bands than l; otherwise l keys, each band's bit string |
| `SimhashLsh.BandKeys` | simhashlsh/lshforest.go:223 | l keys of k characters each |
| `SimhashLsh.RoundMembers` | simhashlsh/lshforest.go:231-249 | a round finds exactly the keys its tables' probes find |
| `SimhashLsh.MatchingWrongLength` | simhashlsh/lshforest.go:234-237 | a probe whose key is not as long as the prefix finds nothing |
| `SimhashLsh.RoundsMembers` | simhashlsh/lshforest.go:225-261 | corrected: the rounds find exactly the keys whose bucket shares a prefix of some length from minK to k with the query's band key |
| `SimhashLsh.ShorterRoundsFindNothing` | simhashlsh/lshforest.go:225-248 | as written, only the first round (prefix length k) can find anything |
| `SimhashLsh.AsWrittenMissesSharedPrefix` | simhashlsh/lshforest.go:226-237 | bucket "01", band key "00", minK 1: the corrected query finds the key, the query as written finds nothing |
| `SimhashLsh.CosineLSH.constructor` | simhashlsh/lshforest.go:133-150 | l empty tables and l empty bootstrapping maps, with the given k, l and hash count |
| `SimhashLsh.CosineLSH.Keys` | simhashlsh/lshforest.go:223 | the band keys of the signature, or a panic exactly when a value is not a bit |
| `SimhashLsh.CosineLSH.Add` | simhashlsh/lshforest.go:158-176 | panics exactly on a non-bit value, changing nothing; otherwise appends the key to its band's bucket in every bootstrapping map |
| `SimhashLsh.CosineLSH.Index` | simhashlsh/lshforest.go:179-204 | every table gains the buckets of its map and stays sorted; the maps are emptied |
| `SimhashLsh.CosineLSH.QueryDown` | simhashlsh/lshforest.go:218-264 | the corrected prefix query: the keys of the rounds from prefix length k down to minK, each once, with the query key cut to the round's prefix |
| `SimhashLsh.RoundsAtK` | simhashlsh/lshforest.go:209-213 | on `Query`'s only call, minK = k, the corrected rounds equal the rounds as written |
| `SimhashLsh.ProbeTables` | simhashlsh/lshforest.go:231-260 | one round emits each key not seen before, in order, and updates the seen set |
| `SimhashLsh.ProbeRounds` | simhashlsh/lshforest.go:225-261 | the rounds k down to minK emit every key they find once |
| `SimhashLsh.CosineLSH.Query` | simhashlsh/lshforest.go:209-216 | exactly the keys of the buckets whose hash key begins with the query's band key in their table, each once |
| `SimhashLsh.FirstRoundMembers` | simhashlsh/lshforest.go:225-248 | the round of length k finds exactly the keys of the buckets matching the whole band key |
| `Stats.ComparePercentiles` | opendata/stats.go:261-274 | 1, 0 or -1 exactly as valueMinus, then valuePlus, compare; value plays no part |
| `Stats.ComparePercentilesOrder` | opendata/stats.go:261-274 | reflexive, antisymmetric, and blind to value |
| `Stats.ComparePercentilesTransitive` | opendata/stats.go:261-274 | transitive, strictly so when either step is strict |
| `Stats.MaxScore` | opendata/stats.go:276-306 | a score of the list that no score exceeds |
| `Stats.GetAttUnionability` | opendata/stats.go:276-306 | the largest of the four scores, and every measure attaining it, in the order set, nl, semset, sem |
| `Stats.ScoringAfterNewMax` | opendata/stats.go:283-304 | a strict new maximum restarts the measure list with itself; a tie appends |
| `Stats.GetAttUnionabilityPercentile` | opendata/stats.go:205-258 | the percentile chosen is a greatest one; the measures are exactly those tying with it, in order; score and percentile come from the first |
| `Stats.StrictlyAbove` | opendata/stats.go:223-256 | a percentile above the best dominates the earlier ones and ties with none of them |
| `Stats.TyingUnchanged` | opendata/stats.go:229-256 | a newcomer tying with the best leaves the tying measures as they were |
| `Stats.SearchUpperBound` | opendata/stats.go:1417 | over sorted upper bounds, the first bin reaching the score, or the bin count when none does |
| `Stats.GetPercentileEquiDepth` | opendata/stats.go:1412-1422 | 0 for a score at most 0, NaN or infinite; else the percentile of the first bin reaching the score capped at 1, 0 when no bin does |
| `Stats.FirstReaching` | opendata/stats.go:1417-1421 | the first bin whose upper bound reaches s |
| `Stats.InsertByValue` | opendata/stats.go:1446 | inserting adds exactly the one percentile |
| `Stats.InsertByValueSorted` | opendata/stats.go:1446 | inserting keeps the percentiles ascending by value |
| `Stats.SortPercentiles` | opendata/stats.go:1438-1451 | panics exactly on empty input; otherwise the percentiles permuted ascending by value, and the input index of the last one, a largest value |
| `TopK.MinIndex` | pqueue/topkqueue.go:24 | the position of an item of smallest priority |
| `TopK.RemoveAt` | pqueue/topkqueue.go:39 | removes exactly the one item |
| `TopK.DescendingOrder` | pqueue/topkqueue.go:3-4 | the items in popping order: a permutation by non-increasing priority |
| `TopK.RejectKeepsTopK` | pqueue/topkqueue.go:35-37 | a full queue rejecting an item no better than its minimum still holds the top k pushed |
| `TopK.EvictKeepsTopK` | pqueue/topkqueue.go:38-41 | evicting the minimum of a full queue for a better item keeps the top k pushed |
| `TopK.AppendKeepsTopK` | pqueue/topkqueue.go:41 | inserting into a queue with room keeps the top k pushed |
| `TopK.TopKQueue.constructor` | pqueue/topkqueue.go:10-15 | an empty queue of capacity k, holding the top k of no pushes |
| `TopK.TopKQueue.Size` | pqueue/topkqueue.go:21 | the number of items held |
| `TopK.TopKQueue.DryPush` | pqueue/topkqueue.go:20-29 | true exactly when the queue has room or some held item ranks strictly below the priority |
| `TopK.TopKQueue.Push` | pqueue/topkqueue.go:34-42 | a rejected push changes nothing; an accepted one into a full queue first removes one minimum; the queue keeps holding the k highest priorities pushed, never more than k |
| `TopK.TopKQueue.Pop` | pqueue/topkqueue.go:39 | removes and returns an item of smallest priority |
| `TopK.TopKQueue.Descending` | pqueue/topkqueue.go:3-4 | empties the queue, returning its items highest priority first |
| `Unionability.NoDuplicatesCount` | opendata/unionability.go:414-424 | no repeated element means no multiplicity above 1 |
| `Unionability.Unique` | opendata/unionability.go:414-424 | the distinct values, each once, in the order of their first occurrences |
| `Unionability.PresentSplits` | opendata/unionability.go:426-443 | the two sides have lengths summing to the input's; one holds exactly the values found in the other list, the other exactly those not found |
| `Unionability.DifferenceAndIntersection` | opendata/unionability.go:426-443 | values1 split, order kept, into the values absent from values2 and those present in it |
| `Unionability.DifferenceAndIntersectionSplit` | opendata/unionability.go:426-443 | every value goes to exactly one side, by whether values2 holds it |
| `Unionability.GetJaccard` | opendata/unionability.go:212-214 | len(I) / (len(Q) + len(C) - len(I)) when the denominator is nonzero |
| `Unionability.GetContainment` | opendata/unionability.go:216-218 | len(I) / len(Q) for a nonempty query; 0/0 = NaN for none |
| `Unionability.MeasuresInUnitInterval` | opendata/unionability.go:212-218 | for duplicate-free sides, with the intersection of `differenceAndIntersection`, both measures lie in [0, 1] and the Jaccard denominator is 0 only for two empty sides |
| `Unionability.IntersectionSize` | opendata/unionability.go:426-443 | the intersection of duplicate-free sides is no longer than either |
| `Unionability.ReplaceRuns` | opendata/unionability.go:463 | only letters and spaces are left |
| `Unionability.ReplaceRunsShape` | opendata/unionability.go:463 | every letter kept in order, and no two spaces side by side |
| `Unionability.PiecesAgree` | opendata/unionability.go:463-468 | splitting the replaced text at spaces gives the same long pieces as cutting the original at every non-letter |
| `Unionability.WordsOf` | opendata/unionability.go:463-468 | the long pieces are words of letters only |
| `Unionability.GetWords` | opendata/unionability.go:460-471 | the lower-cased value cut at every non-letter, keeping exactly the pieces of at least 3 letters, in order |
| `Unionability.NamingAll` | opendata/unionability.go:486-494 | the count reaches the number of words exactly when every word names the entity |
| `Unionability.CountWordEntity` | opendata/unionability.go:486-494 | the number of words naming the entity; all of them exactly when the count is the word count |
| `Unionability.FindEntities` | opendata/unionability.go:473-484 | none for no words; otherwise each once exactly the entities every word names whose count is the word count |
| `Unionability.AlignTables` | opendata/unionability.go:258-286 | the accepted rows are the first fit of the rows in their order (`FirstFit`): distinct columns on both sides, and every other row shares one; the k-th accepted row is emitted with k for 1 <= k <= 10 |
| `Unionability.FirstFitMaximal` | opendata/unionability.go:261-273 | the first fit is disjoint, drawn from the rows, and every row shares a column with it |
| `Unionability.AcceptDisjoint` | opendata/unionability.go:269-273 | accepting a row with both columns unused keeps the accepted rows disjoint |
| `WikiTable.ColumnsOf` | wikitable/wikitable.go:104-112 | n columns, column j holding cell j of every record from lo on |
| `WikiTable.RowsOf` | wikitable/wikitable.go:66-73 | m rows, row i holding cell i of every column |
| `WikiTable.ColumnsOfRows` | wikitable/wikitable.go:66-73 | transposing columns into rows and back gives the columns |
| `WikiTable.LastHeadersSpec` | wikitable/wikitable.go:128-135 | the header row chosen has the first row's width with none of that width after it; none exactly when no header row has that width |
| `WikiTable.CleanTrimmed` | wikitable/wikitable.go:144 | a cleaned cell neither starts nor ends with punctuation |
| `WikiTable.TransposeRaw` | wikitable/wikitable.go:137-147 | panics exactly when a row is narrower than the first; otherwise cell j of row i, cleaned, is cell i of column j |
| `WikiTable.CleanRow` | wikitable/wikitable.go:142-146 | one row's cleaned cells put at its index in every column, or a panic when the row is too short |
| `WikiTable.ReadRaw` | wikitable/wikitable.go:119-152 | each error exactly in its case (no row, empty first row, no header row of that width); else the last such header row and the cleaned, transposed rows |
| `WikiTable.HeadersOf` | wikitable/wikitable.go:92-102 | succeeds exactly when every flag parses; then one header per field, text from the first record and flag from the second |
| `WikiTable.HeadersErrStays` | wikitable/wikitable.go:93-97 | the error returned is that of the first flag that does not parse |
| `WikiTable.HeadersOfFormatted` | wikitable/wikitable.go:59-61 | the flags `FormatBool` writes read back as the headers they came from |
| `WikiTable.MakeHeaders` | wikitable/wikitable.go:92-102 | the header loop computes `HeadersOf` |
| `WikiTable.FillColumns` | wikitable/wikitable.go:104-112 | the column loop computes the transposition of the records from lo on |
| `WikiTable.FromCsvOf` | wikitable/wikitable.go:82-117 | an error exactly with fewer than two records or a bad flag; otherwise the parsed headers and, as column j, field j of every record, header records included |
| `WikiTable.FromCsv` | wikitable/wikitable.go:82-117 | the loops compute `FromCsvOf` |
| `WikiTable.ToCsvOf` | wikitable/wikitable.go:45-79 | an error exactly for no columns, a panic exactly when the first column has cells and some header lacks a column that long; otherwise two more records than the first column has cells, as wide as the headers |
| `WikiTable.ToCsv` | wikitable/wikitable.go:45-79 | the loops compute `ToCsvOf` |
| `WikiTable.ToCsvRecords` | wikitable/wikitable.go:50-73 | a well-formed table is written as header texts, flags, then its rows |
| `WikiTable.FromCsvOfToCsv` | wikitable/wikitable.go:104-112 | as written, every column read back has its header text and flag in front of its cells |
| `WikiTable.FromCsvKeepsHeaderRows` | wikitable/wikitable.go:104-112 | the one-cell table ["x"] under header "name" reads back as ["name", "false", "x"] |
| `Table.FromCSVOf` | table/table.go:62-97 | an error exactly with fewer than two records or a bad flag; otherwise the parsed headers, and column j holding field j of every record after the first two |
| `Table.FromCSV` | table/table.go:62-97 | the loops compute `FromCSVOf` |
| `Table.FromCSVOfToCsv` | table/table.go:84-92 | reading the records `ToCsv` writes for a well-formed table gives back its headers and its columns |
| `Table.GetTable` | table/table.go:43-59 | `ErrNoTableFound` for a missing file; the reading error when the records make no table; otherwise the table read, with the id set |
| `Table.GetTableOfSaved` | table/table.go:43-59 | a well-formed table saved under an id reads back as itself with that id |
| `WwtBenchmarkGen.NewColumnPair` | cmd/wwtbenchmarkgen/main.go:132-137 | the two ids, the smaller first |
| `WwtBenchmarkGen.PairKeySplit` | cmd/wwtbenchmarkgen/main.go:139-141 | the key "c1_c2" splits at '_' into the two ids, which parse back |
| `WwtBenchmarkGen.PairKeyInjective` | cmd/wwtbenchmarkgen/main.go:139-141 | two pairs share a key exactly when they are the same pair |
| `WwtBenchmarkGen.NewColumnPairKey` | cmd/wwtbenchmarkgen/main.go:132-141 | two ids give the same key in either order, and other ids another key |
| `WwtBenchmarkGen.Row` | cmd/wwtbenchmarkgen/main.go:150-152 | position i paired, in order, with each later position |
| `WwtBenchmarkGen.PairsBeforePrefix` | cmd/wwtbenchmarkgen/main.go:149-153 | later rows only extend the pairs of earlier ones |
| `WwtBenchmarkGen.AllPairsLength` | cmd/wwtbenchmarkgen/main.go:148-154 | n ids make n(n-1)/2 pairs |
| `WwtBenchmarkGen.AllPairsAt` | cmd/wwtbenchmarkgen/main.go:148-154 | the pair of positions i < j is emitted at its index |
| `WwtBenchmarkGen.PairIndexInjective` | cmd/wwtbenchmarkgen/main.go:148-154 | different position pairs sit at different indices, so each is emitted once |
| `WwtBenchmarkGen.PairsBeforeFrom` | cmd/wwtbenchmarkgen/main.go:148-154 | every pair emitted is that of two positions i < j |
| `WwtBenchmarkGen.PairRow` | cmd/wwtbenchmarkgen/main.go:150-152 | the inner loop emits the row of position i |
| `WwtBenchmarkGen.UniquePairs` | cmd/wwtbenchmarkgen/main.go:143-157 | panics exactly for fewer than two ids; otherwise every position paired with every later one, row by row |
| `WwtBenchmarkGen.UnseenMembers` | cmd/wwtbenchmarkgen/main.go:88-91 | the pairs kept are exactly those whose key is not a positive pair's |
| `WwtBenchmarkGen.FirstN` | cmd/wwtbenchmarkgen/main.go:85-87 | a prefix of min(count, n) elements, none for a count that is not positive |
| `WwtBenchmarkGen.SampleNegatives` | cmd/wwtbenchmarkgen/main.go:84-93 | the first count pairs, in order, whose key is not positive |
| `WwtBenchmarkGen.NegativePairs` | cmd/wwtbenchmarkgen/main.go:73-93 | panics exactly when count exceeds n(n-1)/2 or there are fewer than two ids; otherwise the first count non-positive pairs of the permuted ids |
| `BaseTables.MappedEnough` | cmd/find_benchmark_base_tables/main.go:55-63 | mapped / distinct >= 0.8 for a nonzero distinct count; for none, true exactly when the float division gives +Inf |
| `BaseTables.KeptIndicesMembers` | cmd/find_benchmark_base_tables/main.go:66-71 | the positions kept are exactly those of the columns with enough distinct values, in increasing order |
| `BaseTables.LargeColumns` | cmd/find_benchmark_base_tables/main.go:66-71 | the first loop collects exactly those positions |
| `BaseTables.DiscardSmallCardinalityCols` | cmd/find_benchmark_base_tables/main.go:65-83 | the kept statistics beside their own column names, the column count set to their number; a panic exactly when a kept statistic has no column name |
| `BaseTables.DiscardedKeepsLarge` | cmd/find_benchmark_base_tables/main.go:65-83 | every column left has enough distinct values, and as many are left as there are such columns |
| `BaseTables.KeptCount` | cmd/find_benchmark_base_tables/main.go:66-71 | as many positions are kept as there are columns with enough distinct values |
| `BaseTables.CountPositions` | cmd/find_benchmark_base_tables/main.go:85-93 | the count is the number of positions of the qualifying columns |
| `BaseTables.CountColumns` | cmd/find_benchmark_base_tables/main.go:85-113 | the counting loop computes `Count` |
| `BaseTables.NumTextCol` | cmd/find_benchmark_base_tables/main.go:85-93 | the number of columns flagged as text |
| `BaseTables.MetFastTextCriteria` | cmd/find_benchmark_base_tables/main.go:95-103 | true exactly when at least five columns are mostly mapped to fastText words |
| `BaseTables.MetYagoCriteria` | cmd/find_benchmark_base_tables/main.go:105-113 | true exactly when at least five columns are mostly mapped to YAGO entities |
| `OdStreams.TrimSpaceBlank` | sandbox/kenpu-distributed/go/src/opendata/streams.go:31-32 | trimming leaves nothing exactly of the blank lines |
| `OdStreams.NonBlankMembers` | sandbox/kenpu-distributed/go/src/opendata/streams.go:30-38 | the lines kept are exactly the lines that are not blank |
| `OdStreams.Capped` | sandbox/kenpu-distributed/go/src/opendata/streams.go:34-36 | a prefix of min(maxLines, n) lines for a positive maxLines, all lines otherwise |
| `OdStreams.ReadLines` | sandbox/kenpu-distributed/go/src/opendata/streams.go:21-40 | the lines that are not blank, untrimmed and in order, stopping once maxLines are kept when maxLines is positive |
| `OdStreams.KeptCellsMembers` | sandbox/kenpu-distributed/go/src/opendata/streams.go:121-130 | a column's values are exactly its cells longer than two once trimmed; a short row adds nothing |
| `OdStreams.AddRow` | sandbox/kenpu-distributed/go/src/opendata/streams.go:122-129 | each domain gains the row's untrimmed cell when it is kept, and nothing else changes |
| `OdStreams.DomainsFromCells` | sandbox/kenpu-distributed/go/src/opendata/streams.go:112-132 | none for no rows; a panic exactly for a negative width with rows; otherwise width domains, domain c holding the kept cells of column c in order |
| `OdStreams.CleanEntityName` | sandbox/kenpu-distributed/go/src/opendata/streams.go:456-463 | the cleaned name is no longer than the name |
| `OdStreams.CleanEntityNameClean` | sandbox/kenpu-distributed/go/src/opendata/streams.go:456-463 | a cleaned name has no upper-case letter and no '_', a '(' only at its start, and no space at either end |
| `OdStreams.CleanFixed` | sandbox/kenpu-distributed/go/src/opendata/streams.go:456-463 | cleaning leaves a clean name unchanged |
| `OdStreams.CleanEntityNameIdempotent` | sandbox/kenpu-distributed/go/src/opendata/streams.go:456-463 | cleaning twice is cleaning once |
| `OdData.IndexAnyLowerLetters` | sandbox/kenpu-distributed/go/src/od/data.go:20-22 | a letter a-z is found exactly when some character of the value is a lower-case letter |
| `OdData.ParseDatafile` | sandbox/kenpu-distributed/go/src/od/data.go:34-38 | panics exactly for fewer than three pieces; the pieces joined by spaces are the trimmed line, and only the file name may hold a space |
| `OdData.ParseDatafileOf` | sandbox/kenpu-distributed/go/src/od/data.go:34-38 | a line "repository dataset file" parses back to those three |
| `OdData.ColCountNarrowest` | sandbox/kenpu-distributed/go/src/od/data.go:85-92 | without empty rows the column count is the width of the narrowest row |
| `OdData.GoodValues` | sandbox/kenpu-distributed/go/src/od/data.go:99-106 | no more values than rows |
| `OdData.GoodValuesMembers` | sandbox/kenpu-distributed/go/src/od/data.go:99-106 | the values of a column are exactly its cells, lower-cased, that hold a lower-case letter |
| `OdData.ColumnValues` | sandbox/kenpu-distributed/go/src/od/data.go:96-106 | panics exactly at a later row without the column; otherwise the good lower-cased values of the column in the rows after the first |
| `OdData.GetDomains` | sandbox/kenpu-distributed/go/src/od/data.go:80-111 | panics exactly when a later row is narrower than the count; otherwise one domain per column of the count, each the good lower-cased values after the header row |
| `Util.Grams` | util/util.go:20-22 | the 3-character pieces, one at each position that leaves room for three |
| `Util.CleanValues` | util/util.go:19 | each value with '_' made a space, trimmed and lower-cased |
| `Util.FoldCounted` | util/util.go:15-34 | panics exactly when a known q-gram has a token index out of range; otherwise one token per q-gram index, each the number of q-grams of that index, and each known q-gram's count |
| `Util.StepCounted` | util/util.go:22-29 | one q-gram adds one to its token and to its count, or panics exactly on a bad index |
| `Util.TokensMatchCounts` | util/util.go:22-29 | with one token index per q-gram, a q-gram's count is its token's count |
| `Util.TokenCountOne` | util/util.go:22-23 | with one token index per q-gram, a token counts the occurrences of its q-gram |
| `Util.CountGrams` | util/util.go:20-31 | the inner loop counts the q-grams of one value |
| `Util.Tokenize` | util/util.go:15-34 | the counts of the q-grams of all cleaned values, in order |
| `Util.IntegerIsNumeric` | util/util.go:108-113 | a decimal integer, signed or not, parses as a float |
| `Util.BenchNumericIsNumeric` | util/util.go:108-113 | every value the pattern test of benchmarkserver/util.go accepts parses as a float |
| `Util.NotNumeric` | util/util.go:108-113 | the empty cell and "abc" do not parse |

## Left out

- File, CSV-text, JSON, SQLite and HTTP I/O are not modelled.
  - A file is given as the lines its scanner yields, or as its CSV records.
  - Stores are maps.
  - The error paths of the I/O itself are not modelled. These include the open error of `readLines`, the scanner's line-length error, the `csv.Writer` errors of `ToCsv`, and the `GetCells`/`Exists` lookups.
- Goroutines and channels run sequentially, in a fixed order chosen by the model.
  - This covers the per-table goroutines of the LSH `Add`/`Index`, the `probe` functions, and the domain streams.
  - The emission order across goroutines is not captured.
- Go's map iteration order is random. Where it matters, it is a parameter or an arbitrary choice, and the contracts state only order-independent facts.
- Floating-point numbers are modelled as reals, without IEEE rounding or NaN propagation except where the code branches on NaN or infinity.
  - `hyperGeometricProb`, `getT2Statistics`, the cosine of two vectors and the CDF histogram builders are not modelled. Their values are given as scores.
  - The choice of k and l in `optimalKL` is not modelled. The model takes them as given, with l * k at most the signature length.
  - The hyperplane dot products of `newSignature` are not modelled. The signature bits are given.
- Characters stand for ASCII bytes.
  - `ToLower`, `TrimSpace`, `Fields` and `unicode.IsPunct` are their ASCII restrictions.
  - The byte offsets of multi-byte characters (in `len(value)` and the q-gram slices) are not distinguished from character positions.
- `strconv.ParseFloat` is modelled on decimal forms only. The hexadecimal forms, underscores and the range error are not modelled.
- `rand.Perm` in the benchmark generator is a parameter, the permutation used.
- The positive-pair loop of cmd/wwtbenchmarkgen/main.go:56-70 is not modelled. It reads the benchmark's columns from files, so the positive pair keys are given as a set.
- The fields of the find_benchmark_base_tables table statistics other than the column count come from a library outside this model. They are given.
- pqueue/pqueue.go and pqueuespan are not part of this model.
  - `Descending` is taken to pop every item, highest priority first.
  - The alignment batch of benchmarkserver/alignment.go is taken to be ordered as `ComparePercentiles` orders.
- BenchAlignment.DescendingBatch: pairs with equal (ValueMinus, ValuePlus) are taken in push order. The pqueuespan heap of benchmarkserver/alignment.go:85,96 need not pop such ties in that order, and ties are common because the percentiles come from CDF bins. That tie order is not captured.
- BenchAlignment.AlignTables: the alignment is the greedy scan of the batch in the order of `BenchAlignment.DescendingBatch`, ties in push order. When the heap pops tied pairs in another order, the scan can keep a different alignment, which the model does not describe.
- Each of the following is the same code as a function modelled elsewhere, and is modelled once:
  - search.go's `add`, `vecToBytes` and `bytesToVec`, modelled in `Embedding`;
  - streams.go's `classifyValues`, modelled as `BenchUtil.ClassifyValues`;
  - streams.go's `wordsFromLine`, modelled as `Sarma.TokenizeAnnotation`;
  - ontology.go's `contains`, modelled as `EmbUtil.Contains`;
  - stats.go's `estimateJaccard`, modelled as `BenchUtil.EstimateJaccard`;
  - embserver/util.go's `toColumnID` and `fromColumnID`, modelled in `BenchUtil`.
- BaseTables.DiscardSmallCardinalityCols: returns a new statistics value. In the source, the column count is written through a shared reference, so the caller's original record changes too. That aliasing is not modelled.
- BaseTables.MappedEnough: the 0.8 comparison is exact over reals. It can differ from Go's float64 division where rounding crosses 0.8.
- WikiTable.FromCsv: requires rectangular records. This stands for the CSV reader's own check that every record has as many fields as the first. An uneven file is an error of the reader, which this model does not capture.
- WikiTable.FromCsvOf: requires rectangular records, for the same reason as `WikiTable.FromCsv`.
- Table.FromCSV: requires rectangular records, for the same reason as `WikiTable.FromCsv`.
- Table.FromCSVOf: requires rectangular records, for the same reason as `WikiTable.FromCsv`.
- Table.GetTable: requires every stored file to hold rectangular records, for the same reason as `WikiTable.FromCsv`.
- TopK.TopKQueue.constructor: requires k >= 1. A k <= 0 reaches `NewTopKQueue` unchecked through the members below. With such a k, `DryPush` finds the queue full at once and calls `Head` on an empty queue (pqueue/topkqueue.go:21-25), and what pqueue/pqueue.go does then is not modelled. `Sarma.SchemaConsistency` panics before it builds a queue when Q or C is empty.
- EmbSearch.Alignment.constructor: requires k >= 1. k <= 0 reaches it unchecked from the request's "k" field (benchmarkserver/emb_server.go:90, embserver/server.go:75, server/server.go:89), which is 0 when the request leaves it out. With such a k, the first push calls `DryPush`, which finds the queue full and calls `Head` on an empty queue (pqueue/topkqueue.go:21-25). What pqueue/pqueue.go does then is not modelled, so the model promises nothing for k <= 0.
- EmbSearch.QueryOrderAll: requires k >= 1, for the same reason as `EmbSearch.Alignment.constructor`: processPairsEmbedding builds `NewTopKQueue(k)` per candidate table (benchmarkserver/emb_search.go:163) and pushes into it.
- Search.TopKEntries: requires k >= 1, for the same reason as `EmbSearch.Alignment.constructor`: `TopK` builds `NewTopKQueue(k)` and pushes every entry (search/search.go:229-231).
- search/search.go:229 calls a `NewTopKQueue` of package search. That definition is not part of this model. The model takes it to be pqueue's `TopKQueue`.
- Search.GetEmb: requires every vector of the store to have dimension dim. In the source every vector comes from one fastText model of one dimension, and `add` panics on a length mismatch, which that store never gives. The store is not part of this model.
- Embedding.GetValueEmb: requires every vector of the store to have dimension dim (`StoreDim`). In the source every vector comes from one fastText model of one dimension, so the length-mismatch panic of `add` (embedding/embedding.go:130-132) is never reached from getTokenizedValueEmb (embedding/fasttext.go:240-262). The store is not part of this model, and the model promises nothing for a store of mixed dimensions.
- Embedding.GetDomainEmbAve: requires every vector of the store to have dimension dim (`StoreDim`). In the source every vector comes from one fastText model of one dimension, so the length-mismatch panic of `add` (embedding/embedding.go:130-132) is never reached from getTokenizedValueEmb (embedding/fasttext.go:240-262). The store is not part of this model, and the model promises nothing for a store of mixed dimensions.
- Embedding.SumValueEmbs: requires every vector of the store to have dimension dim (`StoreDim`). In the source every vector comes from one fastText model of one dimension, so the length-mismatch panic of `add` (embedding/embedding.go:130-132) is never reached from getTokenizedValueEmb (embedding/fasttext.go:240-262). The store is not part of this model, and the model promises nothing for a store of mixed dimensions.
- Embedding.GetDomainEmbSum: requires every vector of the store to have dimension dim (`StoreDim`). In the source every vector comes from one fastText model of one dimension, so the length-mismatch panic of `add` (embedding/embedding.go:130-132) is never reached from getTokenizedValueEmb (embedding/fasttext.go:240-262). The store is not part of this model, and the model promises nothing for a store of mixed dimensions.
- Embedding.GetDomainEmbMeanAsWritten: requires every vector of the store to have dimension dim (`StoreDim`). In the source every vector comes from one fastText model of one dimension, so the length-mismatch panic of `add` (embedding/embedding.go:130-132) is never reached from getTokenizedValueEmb (embedding/fasttext.go:240-262). The store is not part of this model, and the model promises nothing for a store of mixed dimensions.
- Embedding.GetDomainEmbMeanFixed: requires every vector of the store to have dimension dim (`StoreDim`). In the source every vector comes from one fastText model of one dimension, so the length-mismatch panic of `add` (embedding/embedding.go:130-132) is never reached from getTokenizedValueEmb (embedding/fasttext.go:240-262). The store is not part of this model, and the model promises nothing for a store of mixed dimensions.
- Embedding.ScaledValueEmb: requires every vector of the store to have dimension dim (`StoreDim`). In the source every vector comes from one fastText model of one dimension, so the length-mismatch panic of `add` (embedding/embedding.go:130-132) is never reached from getTokenizedValueEmb (embedding/fasttext.go:240-262). The store is not part of this model, and the model promises nothing for a store of mixed dimensions.
- Embedding.FoundNum: requires every vector of the store to have dimension dim (`StoreDim`). In the source every vector comes from one fastText model of one dimension, so the length-mismatch panic of `add` (embedding/embedding.go:130-132) is never reached from getTokenizedValueEmb (embedding/fasttext.go:240-262). The store is not part of this model, and the model promises nothing for a store of mixed dimensions.
- The specification functions and lemmas of `Embedding` over the store (`ValueEmbOf`, `ValueVecs`, `WeightedVecs`, `DomainEmbAve`, `DomainEmbMean`, `DomainEmbMeanAsWritten`, `FoundFrequency` and the lemmas about them) require `StoreDim` for the same reason.
- WwtBenchmarkGen.NegativePairs: the count of negative pairs is given. The float ratio from which the source computes it is not modelled.
- OdData.IsGood is a plain predicate, because its definition is its whole meaning.

## Findings

| source | as written | input that shows it | evidently intended | confidence | as-written member | corrected member |
|---|---|---|---|---|---|---|
| opendata/sarma.go:764-770 | every bigram of b is a hit when it occurs among the bigrams of a; a hit does not use up a's count | dice("aa", "aaa") = 2 * 2 / (1 + 2) = 4/3 | a Dice coefficient within [0, 1], each bigram of a matched at most once | not executed | `Sarma.DiceAsWrittenAboveOne` | `Sarma.DiceFixedInUnitInterval` |
| opendata/sarma.go:397-410 | the candidate column index is compared with the matched query columns, so one candidate column can be matched twice | Q = [0, 1], C = [5], scores 1.0 and 0.5: W = 1.5 over 2 + 1 - 2 columns, a score of 1.5 | a one-to-one matching and a score within [0, 1] (0.5 here) | not executed | `Sarma.SchemaAsWrittenAboveOne` | `Sarma.OneToOneScoreInUnitInterval` |
| benchmarkserver/util.go:281-290 | `maxCount` is never updated, so the last class in map order whose count exceeds 0 wins | values ["1", "1", "ab"], with the numeric class visited first: "text", counted once against numeric's twice | the class seen most often, as the comment says | not executed | `BenchUtil.ClassifyAsWrittenMissesMajority` | `BenchUtil.ClassifyValuesFixed` |
| embedding/fasttext.go:153,222-228 | `multVector` divides by s, and `GetDomainEmbMean` passes 1/n, so the sum is multiplied by n | one value "a" of frequency 2 whose vector is [1]: the mean comes out as [4] | the sum divided by the frequency total, [1] here | not executed | `Embedding.MeanAsWrittenExample` | `Embedding.GetDomainEmbMeanFixed` |
| simhashlsh/lshforest.go:226-237 | in a round of prefix length K below k, the full k-bit query key is compared with K-bit bucket prefixes, which it can never equal | k = 2, minK = 1, a bucket "01" holding "a" and a query key "00": the round K = 1 finds nothing | the round K finds the keys whose first K bits agree with the query's ("a" here) | not executed | `SimhashLsh.AsWrittenMissesSharedPrefix` | `SimhashLsh.RoundsMembers` |
| wikitable/wikitable.go:104-112 | every record, the header-text and type-flag rows among them, becomes a cell of each column | a table of one column "name" (not numeric) with the cell "x", written by `ToCsv` and read back: the column is ["name", "false", "x"] | the two header rows skipped, as table/table.go:84-92 does, so that reading back what was written gives the table | not executed | `WikiTable.FromCsvKeepsHeaderRows` | `Table.FromCSVOfToCsv` |
| ontology/ontology.go:85-110 | each pass adds only each line's direct parent, so the second pass changes nothing and the result equals `readTaxonomy`'s | links a -> b and b -> c: a is given [b] only | every ancestor class of each class, as the comment says (c for a) | not executed | `Ontology.FlattenMissesGrandparent` | `Ontology.FlattenClosure` |
| ontology/ontology.go:138-146 | a type's parents are added only when the type itself is not yet listed; a type first listed as another type's parent never has its own parents added | types [t1, t2] with t1 -> t2 and t2 -> t3: the ancestors are [t1, t2], without t3 | each type followed by the direct parents of every type | not executed | `Ontology.AncestorsMissParent` | `Ontology.AncestorsIntended` |
