# Phone recommender: a Dafny model

This project models the recommendation pipeline of `taqui.py`. The program
recommends phones to a user from the user's purchase history and income:

1. It looks phones up by model name, first match wins.
2. It turns each phone into a 7-component feature vector: price, screen size,
   storage, RAM, camera, and a one-hot pair for Android or iOS.
3. It averages the vectors of the purchased phones into a profile vector. The
   divisor is the length of the whole purchase history.
4. It keeps the catalogue phones that the user does not own and whose price
   lies in the band [0.7 · income, 1.5 · income].
5. It scores each kept phone against the profile, sorts the list in place by
   score (highest first, stable), and returns the first `top_n` phones.

A user is looked up by identifier in the same first-match way.

Files and modules:

- `wrappers.dfy` (`Wrappers`): the `Option` type.
- `catalog.dfy` (`Catalog`): phone and user records; the lookup by model, as
  a function and as the scanning loop; the user lookup.
- `features.dfy` (`Features`): the feature vector and the OS one-hot pair.
- `profile.dfy` (`Profile`): the profile vector, specified as a function. The
  averaging loop is a method that adds into a 7-element array in place and
  then divides it in place.
- `ranking.dfy` (`Ranking`): the stable descending sort. It is specified as a
  function, proved sorted, a permutation and stable, and implemented as an
  in-place insertion sort on an array.
- `recommender.dfy` (`Recommender`): the price-band filter, the scoring, the
  top-`n` slice, the whole recommendation as a method, and the per-user entry
  point.

Prices, income and vector components are exact `real`s. The similarity score
is a parameter `sim: (Vector, Vector) -> real`, applied to the profile vector
and a candidate's feature vector. Every property about filtering, ordering and
top-`n` therefore holds for any score function.

Modelling choices that follow the code:

- The code reads the operating system with `celular['sistema_operacional']`,
  which raises `KeyError` when the field is missing. So `os` is a required
  string. Any string other than "Android" and "iOS" encodes as [0,0].
- For an unknown user the code prints a message and returns nothing.
  `RecommendForUser` returns `None`.
- The code does not restrict `top_n`. It is an `int` with the semantics of
  the Python slice `s[:top_n]`, so a negative value drops that many entries
  from the end.

## Model

| member | source | states |
|---|---|---|
| `Catalog.FirstByModel` | taqui.py:15-19 | The result is `None` exactly when no phone has the model. Otherwise it is the entry at some index whose model matches, and no earlier entry matches. |
| `Catalog.FindByModel` | taqui.py:15-19 | The scanning loop with early return gives exactly the first-match result. |
| `Catalog.FindUser` | taqui.py:72 | The result is `None` exactly when no user has the identifier. Otherwise it is the first user with that identifier. |
| `Features.OsOneHot` | taqui.py:23-26 | The pair has 2 components. It is [1,0] iff the OS is exactly "Android", [0,1] iff exactly "iOS", and [0,0] iff neither. |
| `Features.FeatureVector` | taqui.py:22-35 | The vector has 7 components: price, screen size, then storage, RAM and camera, each defaulting to 64, 4 and 12 when absent, unscaled. Components 5-6 are the OS pair, each non-negative and summing to at most 1. |
| `Profile.ProfileVector` | taqui.py:38-48 | The profile has 7 components. It is the zero vector for an empty history. Each component is the summed contribution divided by the full history length, or by 1 when the history is empty. |
| `Profile.SumResolvedSnoc` | taqui.py:42-45 | Accumulating entry by entry from the front gives the same sum as `SumResolved`: processing one more entry adds its contribution. |
| `Profile.UnmatchedEntryDilutes` | taqui.py:42-46 | An entry that no phone matches leaves the sum unchanged but still counts in the divisor. The profile becomes sum / (n + 1). |
| `Profile.NoneResolvesIsZero` | taqui.py:41-46 | When no history entry names a catalogue phone, the sum and the profile are the zero vector, whatever the history length. |
| `Profile.SumResolvedOsBounds` | taqui.py:42-45 | The summed OS components are non-negative and together at most the history length. |
| `Profile.ProfileOsShares` | taqui.py:41-46 | The OS components of any profile lie in [0, 1] and sum to at most 1. |
| `Profile.SumResolvedOfOnePhone` | taqui.py:42-45 | When every entry resolves to phone p, the sum is p's vector times the history length. |
| `Profile.ProfileOfOnePhone` | taqui.py:38-48 | When every entry of a non-empty history resolves to phone p, the profile is exactly p's feature vector. |
| `Profile.AddInPlace` | taqui.py:45 | In-place `+=`: the array becomes the component-wise sum of its old contents and the vector. |
| `Profile.DivideInPlace` | taqui.py:46 | In-place `/=`: the array becomes its old contents divided component-wise. |
| `Profile.AverageVector` | taqui.py:38-48 | The averaging loop returns exactly the profile vector. |
| `Ranking.InsertPermutes` | taqui.py:65 | Inserting adds exactly one entry and loses none: the multisets agree. |
| `Ranking.SortDesc` | taqui.py:65 | The sorted list is a permutation of its input. |
| `Ranking.InsertSorted` | taqui.py:65 | Inserting into a list sorted by descending score keeps it sorted. |
| `Ranking.SortDescSorted` | taqui.py:65 | The sorted list has non-increasing scores. |
| `Ranking.InsertStable` | taqui.py:65 | Insertion places an entry after every entry of equal score. |
| `Ranking.SortDescStable` | taqui.py:65 | Stability: for every score, the entries with that score keep their input order. |
| `Ranking.InsertInPlace` | taqui.py:65 | One in-place insertion step moves the next entry into the sorted prefix and leaves the rest of the array alone. |
| `Ranking.SortByScore` | taqui.py:65 | After the in-place sort the array holds the stable descending sort of its old contents. |
| `Recommender.Candidates` | taqui.py:53-59 | A phone is a candidate iff it is in the catalogue, its model is not in the history, and 0.7·income ≤ price ≤ 1.5·income. There are never more candidates than catalogue phones. |
| `Recommender.CandidatesAppend` | taqui.py:58-59 | Filtering a catalogue split in two gives the candidates of the first part followed by those of the second: survivors keep catalogue order and multiplicity. |
| `Recommender.CandidatesSingle` | taqui.py:59 | A one-phone catalogue keeps its phone exactly when that phone qualifies. |
| `Recommender.ScoreCandidates` | taqui.py:58-62 | The filtering loop appends each qualifying phone with its score, in catalogue order. |
| `Recommender.SliceTo` | taqui.py:68 | `s[:n]` is a prefix of `s`. For n ≥ 0 its length is min(n, len(s)). For n < 0 its length is max(len(s) + n, 0): the last -n entries are dropped. |
| `Recommender.Recommendations` | taqui.py:51-68 | The recommendations are the phones of a prefix of the ranked candidates, in ranking order. |
| `Recommender.RecommendationsQualify` | taqui.py:53-68 | Every recommended phone comes from the catalogue, is not in the purchase history, and is priced within [0.7·income, 1.5·income]. |
| `Recommender.RecommendationsCount` | taqui.py:65-68 | For top_n ≥ 0 there are min(top_n, number of candidates) recommendations. top_n = 0 gives none. |
| `Recommender.RecommendationsRanked` | taqui.py:61-68 | The recommendations have non-increasing scores. |
| `Recommender.SortOfTiesIsIdentity` | taqui.py:65 | Sorting entries that all share one score leaves them in their order. |
| `Recommender.UniformScoreKeepsCatalogOrder` | taqui.py:58-68 | If every candidate gets the same score, the recommendations are the first top_n candidates in catalogue order. |
| `Recommender.OwnedPhoneExcludedScenario` | taqui.py:53-68 | Catalogue A (500) and B (520), a user with income 700 who owns A, top_n = 1: the result is exactly [B], for any score function. |
| `Recommender.RecommendPhones` | taqui.py:51-68 | Profile, filter and score, in-place sort, slice: the method returns exactly the specified recommendations. |
| `Recommender.RecommendForUser` | taqui.py:71-81 | The result is `None` exactly when no user has the identifier. Otherwise it is the recommendations for the first user with it. |

## Left out

- Loading the JSON files and the global `usuarios`/`celulares` lists (taqui.py:6-12): file I/O. The catalogue and the users are parameters.
- Console output (taqui.py:75, 78, 80-81) and the fixed call for user 2 (taqui.py:84-85): output plumbing. `RecommendForUser` returns the list, or `None` for an unknown user.
- `cosine_similarity` (taqui.py:3, 61): a foreign library call on floating-point vectors, including its handling of a zero profile vector. It is the parameter `sim`.
- Floating-point and numpy semantics: `renda * 0.7`, `renda * 1.5` and the vector arithmetic are exact real arithmetic here, so rounding at the band edges is not modelled.
- The default argument `top_n=5` (taqui.py:51, 71): callers pass `topN` explicitly.
- Optional fields that are present but `null` in the JSON: `Option` models only a field that is absent.
- The truthiness test `if celular:` (taqui.py:44): a found phone record is a non-empty dictionary and always true, so the model adds every phone it finds.
- Brand and age are carried in the records but only printed, so no contract mentions them.
- Running the recommendation twice on the same inputs gives the same result. This needs no lemma: every member is a deterministic function of its inputs.
