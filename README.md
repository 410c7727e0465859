# TechniqueRAG matching core in Dafny

This project models how the TechniqueRAG pipeline matches one query against a
catalog of MITRE ATT&CK techniques. The model covers three steps:

- **Catalog** (`catalog.dfy`). The parsed technique records are projected into
  five parallel columns: ids, names, descriptions, tactic ids and tactic names.
  A tactic field missing from a record becomes `"Unknown"`. A record missing
  `id`, `name` or `description` makes loading fail with the key error of the
  first of those three columns that some record lacks.
- **Ranking** (`ranking.dfy`). The library top-k call is stated as a relation,
  `IsTopK`: the chosen positions are distinct and valid, each carries its own
  score, the scores do not increase, and no position left out scores higher
  than a chosen one. The library promises nothing about ties. `TopK` is one
  deterministic selection that meets `IsTopK` and also ranks equal scores by
  earlier catalog position. The lemmas prove that every selection meeting
  `IsTopK` has the same score sequence.
- **Pipeline** (`pipeline.dfy`). `k = min(3, number of scores)`. The loop keeps
  the ranked candidates whose score is at least 0.55, in ranked order, and
  copies each one's catalog row with its score rounded to four decimals. The
  result is `no_match` with an empty list when nothing is kept, and `ok` with
  the list otherwise.

The similarity row (`util.cos_sim` of the query embedding against the corpus
embeddings) is a parameter `sims: seq<real>`, with one score per catalog row in
catalog order. The catalog columns are built once and only read afterwards, so
they are a datatype value. `run_pipeline` cannot change them, and it builds its
own local list.

Where the design description and the code disagree, the model follows the code:

- The design asks for ties to be broken by catalog order. The code leaves the
  choice to the library top-k call, which does not promise this. So every
  property of the result is proved for any selection satisfying `IsTopK`. The
  stable order is only a property of the model's own `TopK`.
- The design calls a bad record a `MalformedCatalog` error. The code raises a
  `KeyError` for the missing key, and the model says which key that is.

## Model

| member | source | states |
|---|---|---|
| Catalog.Column | TechniqueRAG/models/ctiPipeline.py:27-29 | the column has one entry per record, and entry i is record i's value for the key |
| Catalog.ColumnOr | TechniqueRAG/models/ctiPipeline.py:30-31 | one entry per record; entry i is record i's value when the key is present, otherwise the default |
| Catalog.Load | TechniqueRAG/models/ctiPipeline.py:27-31 | loading succeeds iff every record has id, name and description; on success the five columns are aligned and as long as the record list; on failure the error names a key some record lacks, and it is the first such key in the order id, name, description |
| Catalog.LoadedRow | TechniqueRAG/models/ctiPipeline.py:27-31 | row i of a loaded catalog holds record i's id, name and description, and its tactic id/name or "Unknown" when absent |
| Catalog.LoadRecords | TechniqueRAG/models/ctiPipeline.py:27-31 | writing a catalog's rows back out as records and loading them gives back the same catalog |
| Catalog.RowRoundTrip | TechniqueRAG/models/ctiPipeline.py:27-31 | a record carrying exactly the five fields is reproduced exactly by its catalog row |
| Ranking.TopK | TechniqueRAG/models/ctiPipeline.py:55 | returns k distinct valid positions with their own scores, non-increasing, no unchosen score above a chosen one; equal scores are ranked by earlier position |
| Ranking.BestUnchosen | TechniqueRAG/models/ctiPipeline.py:55 | returns a position not yet chosen whose score no other unchosen position exceeds, and the first such position among equal scores |
| Ranking.ScoreAtMost | TechniqueRAG/models/ctiPipeline.py:55 | the j-th score of one valid top-k selection never exceeds the j-th score of another |
| Ranking.ScoresDetermined | TechniqueRAG/models/ctiPipeline.py:55 | every selection satisfying the top-k contract carries the same score sequence, however ties are broken |
| Pipeline.RankCount | TechniqueRAG/models/ctiPipeline.py:53-54 | k is at most 3 and at most the number of scores, and equals one of them (the minimum) |
| Pipeline.RoundHalfEven | TechniqueRAG/models/ctiPipeline.py:65 | the result is an integer within 1/2 of the input, and an exact tie goes to the even integer |
| Pipeline.Round4 | TechniqueRAG/models/ctiPipeline.py:65 | the confidence is a multiple of 1/10000 within 1/20000 of the score |
| Pipeline.Round4Monotone | TechniqueRAG/models/ctiPipeline.py:65 | rounding keeps the order of scores |
| Pipeline.Round4AtLeastThreshold | TechniqueRAG/models/ctiPipeline.py:59-65 | a score at or above 0.55 keeps a confidence at or above 0.55 after rounding |
| Pipeline.KeptPositions | TechniqueRAG/models/ctiPipeline.py:59-61 | the kept ranked positions are ascending, each scores at least 0.55, and every position scoring at least 0.55 is kept |
| Pipeline.Respond | TechniqueRAG/models/ctiPipeline.py:71-80 | the result carries the list unchanged, and its status is no_match exactly when the list is empty |
| Pipeline.MatchesKeepInOrder | TechniqueRAG/models/ctiPipeline.py:57-69 | the returned list is the order-preserving subsequence of the ranked candidates made of exactly those scoring at least 0.55, each entry built from its candidate's catalog row |
| Pipeline.MatchesSnoc | TechniqueRAG/models/ctiPipeline.py:59-69 | one more ranked candidate appends its entry exactly when its score reaches the threshold |
| Pipeline.MatchesOfTopK | TechniqueRAG/models/ctiPipeline.py:55-69 | for any top-k selection: at most k entries, each one catalog row scoring at least 0.55 with all fields from that row, confidences at least 0.55 and non-increasing |
| Pipeline.NoMatchIffNoneReached | TechniqueRAG/models/ctiPipeline.py:59-75 | the status is no_match exactly when every ranked score is below 0.55 |
| Pipeline.OutcomeIndependentOfTies | TechniqueRAG/models/ctiPipeline.py:55-80 | two valid top-k selections give the same status, the same number of techniques and the same confidences |
| Pipeline.MatchRanked | TechniqueRAG/models/ctiPipeline.py:57-80 | the filtering loop and the final branch compute exactly the specified result for the ranked pairs |
| Pipeline.RunPipeline | TechniqueRAG/models/ctiPipeline.py:43-80 | the result is the specified result for some valid top-(min(3, n)) selection; at most 3 and at most n techniques; no_match iff empty; every entry from one catalog row scoring at least 0.55; confidences at least 0.55 and non-increasing; an empty catalog gives no_match |

## Left out

- Loading the embedding model, creating the cache directory and reading the technique JSON file are I/O. The model starts from the parsed record list.
- Encoding the query and the corpus, and `util.cos_sim`, are floating-point numerics inside a third-party model. The model takes the similarity row as a parameter, one score per catalog row. Nothing assumes the scores lie in [-1, 1].
- Scores are real numbers, not 32-bit tensor floats converted to Python floats. The threshold is the real 0.55, while the binary float 0.55 is slightly larger. A score between the two would be kept by the model and dropped by the code.
- Pipeline.Round4: rounds the real score half-to-even to four decimals. It does not model how the result is represented as a binary float.
- Record values are modelled as strings. A JSON file whose top level is not a list, or whose fields hold non-string values, is not modelled.
- Pipeline.RunPipeline: its requirement that there is one score per catalog row holds by construction in the code, because the embeddings are computed from the description column. The model states it as a precondition.
- Calling the pipeline twice on the same scores gives the same result because every function and method of the model is deterministic. There is no separate lemma for this.
- The command-line entry point (argument handling and JSON printing) is left out.
- The HTTP controller that spawns the Python script is left out. It is request/response plumbing around a subprocess.
