# Sommelier du Parfum Iyaly — the recommendation core in Dafny

This project models the recommendation core of the "Sommelier du Parfum Iyaly"
page (`app.py`) and proves properties of it. The page loads a catalog of perfumes
from a spreadsheet and gives each perfume a display label and an olfactory profile.
It turns the profiles into word-count vectors and compares every pair by cosine
similarity. For a perfume picked from the list, it shows up to five similar perfumes,
each coloured by its score. Perfumes of an incompatible sex and weak matches are
skipped. It also builds the sorted note vocabulary behind criteria search and reads
the `?note=` deep link.

The modules follow the page's stages, one file each:

- `wrappers.dfy` (`Wrappers`): `Option` and `Result`.
- `text.dfy` (`Text`): the string operations the page relies on.
  - Python's `str.strip` and its whitespace set.
  - The code-point order that `sorted` uses on strings.
  - Sorting with duplicates removed.
  - Joining and splitting on a separator.
- `catalog.dfy` (`Catalog`): the catalog as prepared.
  - The sheet, filled with `fillna("")`.
  - The `Sexe` default.
  - The `Affichage` label and the `Profil` text.
  - The missing-column error.
- `notes.dfy` (`Notes`): the note vocabulary, the forced note, and the initial search mode.
- `vectors.dfy` (`Vectors`): the count vectors and the cosine similarity matrix.
  - Tokenizing and term fitting, as `CountVectorizer` does it.
  - The count matrix.
  - Integer dot products and Cauchy–Schwarz.
  - Cosine as a real number, pinned down by its defining equation.
  - The similarity matrix.
- `ranker.dfy` (`Ranker`): reference-mode suggestions.
  - The first-match lookup of the selected label.
  - The stable descending sort.
  - `scores[1:]`.
  - The walk with its `continue`s and its `break` after five (`Ranker.Suggest`, a method with a loop).
  - The properties of the suggestions shown.

The walk is a `method` with a `while` loop, as in the source. It is proved against the
specification function `Take(Accepted(...), 5)`, and the suggestion lemmas are stated
about that function. Everything else in the core computes values and is modelled as
functions and lemmas.

Choices fixed by the code in `app.py`:

- A token is a run of two or more word characters of the lower-cased profile (`CountVectorizer`'s defaults), so one-character words are dropped and "Boisé" and "boisé" count as the same term.
- Before the walk, the first sorted entry is dropped (`scores[1:]`), and the reference is skipped as well.
- Criteria search has no ranking code in `app.py`, so only the note vocabulary and the initial mode behind it are modelled.

## Model

| member | source | states |
|---|---|---|
| Catalog.Load | app.py:35-60 | Loading succeeds exactly when the name column and the nine profile columns are all present. A failure names the first required column, in the order the page reads them, that the sheet lacks. One perfume per sheet row. The long label is used exactly when "Référence", "Nom du Parfum" and "Parfumeur" are all present. |
| Catalog.FirstMissing | app.py:48-59 | The error names the first required column, in the order the page reads them, that the sheet lacks. There is no error exactly when all are present. |
| Catalog.LoadedField | app.py:35-38 | Each of the thirteen fields of a loaded perfume (reference, name, perfumer, sex and the nine profile fields) is its cell's text, "" for an empty cell, and "" for a column the sheet lacks; the required columns are always present. |
| Catalog.LoadedSexDefault | app.py:37-38 | With no "Sexe" column, every perfume's sex is "". |
| Catalog.Label | app.py:41-48 | Without the three label columns the label is the bare name. Otherwise the reference can be read back from the long label, as the text between "[" and the first "]", when the reference holds no "]". |
| Catalog.LabelsDistinguishReferences | app.py:41-46 | Two perfumes with different references (without "]") get different long labels. |
| Catalog.LabelInjective | app.py:41-47 | A long label gives back all three of its parts: two perfumes whose references hold no "]" and whose perfumers hold no "–" share a long label only when their reference, name and perfumer are all the same. |
| Catalog.Profile | app.py:50-60 | The profile is the nine fields in their fixed order, joined with one space between each two, empty fields included. |
| Catalog.ProfileSplit | app.py:50-60 | When no field holds a space, splitting the profile on spaces gives back the nine fields in place. |
| Text.SplitJoin | app.py:50-60 | Splitting on a separator is the inverse of joining with it, for fields free of the separator. |
| Text.StripEmptyIffBlank | app.py:74 | `strip()` gives "" exactly for strings made only of Python whitespace. |
| Text.LessIrreflexive | app.py:74 | The string order of `sorted` is irreflexive. |
| Text.LessTransitive | app.py:74 | The string order of `sorted` is transitive. |
| Text.LessTotal | app.py:74 | Any two different strings are ordered one way or the other. |
| Text.LessAsymmetric | app.py:74 | No two strings are each less than the other. |
| Text.InsertSorted | app.py:71-74 | Inserting a value into a strictly sorted list keeps it strictly sorted, and the members become the old ones plus the value. |
| Text.SortedUnique | app.py:71-74 | The result is strictly sorted and holds exactly the members of the input. |
| Text.StrictlySortedUnique | app.py:71-74 | Two strictly sorted lists with the same members are equal, so the vocabulary does not depend on the order the notes come in. |
| Notes.NonBlank | app.py:74 | A value is kept exactly when it is in the input and does not strip to "". |
| Notes.AllNotesMembers | app.py:71-72 | The concatenated note columns hold exactly the values that fill one of the six note slots of some perfume. |
| Notes.Vocabulary | app.py:71-74 | The vocabulary is strictly sorted, and holds exactly the values of the concatenated note columns that do not strip to "". |
| Notes.VocabularySpec | app.py:66-74 | The vocabulary is strictly sorted, and holds exactly the values that fill a note slot of some perfume and are not blank. |
| Notes.ForcedNote | app.py:76 | The forced note is "" or the query value (absent reads as ""), and it is the query value whenever that is in the vocabulary. |
| Notes.InitialMode | app.py:78 | The radio button starts on criteria search exactly when a note is forced, and on search from a perfume otherwise. |
| Notes.DeepLink | app.py:76-78 | The `?note=` value (absent reads as "") is kept exactly when it is in the vocabulary, and otherwise becomes "". Criteria search is preselected exactly when it is kept. |
| Vectors.Lower | app.py:62-63 | Lower-casing keeps word characters word characters, never gives an upper-case letter, and leaves every other character as it is. |
| Vectors.Tokenize | app.py:62-63 | Every token is at least two word characters long, none of them upper case. |
| Vectors.WordTokens | app.py:62-63 | A text made only of word characters gives its lower-cased self as its only token, or no token when it is shorter than two characters. |
| Vectors.FamilyToken | app.py:50-63 | A profile whose family is one word of at least two word characters has that word, lower-cased, among its tokens. |
| Vectors.TokenizeSeparated | app.py:62-63 | A non-word character cuts a text into two parts whose tokens are concatenated. |
| Vectors.TokenizeJoin | app.py:50-63 | The tokens of space-joined fields are the tokens of each field in turn. |
| Vectors.ProfileTokens | app.py:50-63 | The tokens of a profile are the tokens of its nine fields in order: no token spans two fields. |
| Vectors.EmptyProfileHasNoTokens | app.py:50-63 | A perfume whose nine profile cells are all empty has no token. |
| Vectors.AllTokensSpec | app.py:62-63 | The tokens of the corpus are exactly the tokens of its documents. |
| Vectors.Terms | app.py:62-63 | The fitted vocabulary is strictly sorted, and holds exactly the tokens that occur in some profile. |
| Vectors.TermsCover | app.py:62-63 | Every token of every profile is a term of the fitted vocabulary. |
| Vectors.Count | app.py:63 | The count of a term is its multiplicity among the tokens. |
| Vectors.CountVector | app.py:63 | Entry k of a count vector is the number of times term k occurs among the tokens. |
| Vectors.CountMatrix | app.py:63 | One row per profile and one column per term. Entry (i, k) is the number of times term k occurs in profile i. |
| Vectors.EmptyVocabulary | app.py:62-63 | The vocabulary is empty exactly when no profile has a token. |
| Vectors.FitTransform | app.py:62-63 | Fitting fails with sklearn's "empty vocabulary" error exactly when no profile has a token, an empty catalog included. Otherwise it gives the count matrix over a non-empty vocabulary. |
| Vectors.CountVectorSum | app.py:63 | Counting over distinct terms that cover all tokens gives as many counts in all as there are tokens. |
| Vectors.CountRowSum | app.py:63 | Row i of the count matrix sums to the number of tokens of profile i. |
| Vectors.DotSymmetric | app.py:64 | The dot product is symmetric. |
| Vectors.DotNonNegative | app.py:64 | The dot product of count vectors is never negative. |
| Vectors.SqNormZero | app.py:64 | A squared norm is never negative, and is 0 exactly for the zero vector. |
| Vectors.CombineNorm | app.py:64 | The squared norm of p·a − q·b expands to p²·|a|² − 2pq·(a·b) + q²·|b|². |
| Vectors.CauchySchwarz | app.py:64 | (a·b)² ≤ |a|²·|b|², which is what keeps the cosine within [−1, 1]. |
| Vectors.CosineRange | app.py:64 | The cosine of two count vectors lies in [0, 1]. |
| Vectors.CosineSymmetric | app.py:64 | The cosine of a and b is the cosine of b and a. |
| Vectors.CosineUnique | app.py:64 | The defining equation has one solution only, so the cosine is well defined. |
| Vectors.CosineSelf | app.py:64 | A vector's cosine with itself is 1, or 0 for the zero vector (sklearn's convention for zero rows). |
| Vectors.SimilaritySpec | app.py:64 | The similarity matrix is symmetric with entries in [0, 1], and its diagonal is 1 except for zero rows, which get 0. |
| Vectors.TwinsScoreOne | app.py:62-64 | Two profiles with the same text and at least one token score exactly 1.0 against each other. |
| Vectors.OnesSimilarity | app.py:62-64 | When every profile has the same text and it has a token, the all-ones matrix is the catalog's matrix of cosines. |
| Vectors.CatalogSimilarity | app.py:62-64 | A perfume's similarity to itself is 1 when its profile has a token. Otherwise it is 0, and so is its whole row. |
| Vectors.BlankPerfumeScoresZero | app.py:50-64 | On the catalog's own profiles, a perfume whose nine profile cells are all empty scores 0 against every perfume, in its row and in its column. |
| Ranker.TierOf | app.py:105-112 | Green above 0.5, orange in (0.3, 0.5], red in (0.1, 0.3], and no colour at 0.1 or below, which means the candidate is skipped. |
| Ranker.Insert | app.py:89 | Inserting into an ordered list keeps it ordered: higher score first, ties in position order. The result is a permutation of the input plus the new entry. |
| Ranker.SortDescending | app.py:89 | The result is ordered by descending score with ties in position order (a stable `reverse=True` sort), and is a permutation of the input. |
| Ranker.SexRule | app.py:100-103 | A Homme reference admits only Homme and Mixte, a Femme reference only Femme and Mixte, and any other reference admits every sex. |
| Ranker.Ranked | app.py:88-89 | The ranking is ordered by descending score with ties in position order, and is a permutation of the enumerated row. |
| Ranker.RankedSpec | app.py:88-89 | The ranking lists every position of the row exactly once, each with its own score, ordered best first with ties in position order. |
| Ranker.Judge | app.py:96-112 | A candidate is shown exactly when it is not the reference, its sex is compatible, and its score is above 0.1. It is then shown with its own position, score and colour. |
| Ranker.JudgeAdmissible | app.py:96-112 | A shown candidate meets the page's promises: not the reference, Homme/Mixte for a Homme reference, Femme/Mixte for a Femme reference, above 0.1, and coloured by its score band. |
| Ranker.AcceptedAppend | app.py:94-130 | The walk over two runs of candidates is the walk over each in turn. |
| Ranker.TakeFilled | app.py:128-130 | Once the candidates walked so far give five suggestions, the remaining candidates change nothing, which is why the loop may stop there. |
| Ranker.Suggest | app.py:94-130 | The loop shows exactly the first five of the candidates that pass, in candidate order. A skipped candidate never uses up one of the five places. |
| Ranker.AcceptedFrom | app.py:94-130 | Every suggestion comes from a candidate that passes. |
| Ranker.AcceptedHas | app.py:94-130 | Every candidate that passes yields a suggestion. |
| Ranker.AcceptedOrdered | app.py:89-130 | Suggestions keep the candidates' order: best first, ties in catalog order. |
| Ranker.AcceptedAdmissible | app.py:88-112 | Over candidates drawn from a similarity row, every suggestion is admissible. |
| Ranker.TakeAcceptedComplete | app.py:94-130 | Over ordered candidates, a passing candidate is shown unless five suggestions are shown and all of them rank before it. |
| Ranker.FirstIndexOf | app.py:83-84 | No index exactly when the label is absent. Otherwise the result is the first position holding that label. |
| Ranker.ShadowedLabel | app.py:84 | When two perfumes share a label, the later one is never the reference. |
| Ranker.ReferenceMode | app.py:80-95 | The suggestion block is skipped (no result) exactly when the selection is not a label. Otherwise the result is the as-written suggestions for the first perfume with that label, which may be empty. They equal the intended suggestions when that perfume ranks first in its own row. |
| Ranker.TopSuggestions | app.py:88-130 | At most five suggestions, best first with ties in catalog order, each admissible. |
| Ranker.TopSuggestionsSkipHead | app.py:95 | No suggestion shown is the first sorted entry, whether or not that entry is the reference. |
| Ranker.TopSuggestionsComplete | app.py:94-130 | A perfume that passes and is not the first sorted entry is shown, unless five suggestions, all ranking before it, are shown. |
| Ranker.IntendedSuggestions | app.py:88-112 | With the first sorted entry kept: at most five suggestions, ordered, each admissible. |
| Ranker.IntendedSuggestionsComplete | app.py:94-130 | With the first sorted entry kept, every passing perfume other than the reference is shown unless five better ones are. |
| Ranker.HeadIsReference | app.py:95-97 | When the reference ranks first in its own row, the page shows the intended suggestions. |
| Ranker.AsWrittenAgrees | app.py:89-97 | The reference ranks first when every other perfume scores lower, or equal and later in the catalog. The page then shows the intended suggestions. |
| Ranker.SelfRankedFirst | app.py:62-97 | On the exact cosines of the page's count matrix, a reference whose profile has a token ranks first unless an earlier perfume scores exactly 1.0 against it. Then the page shows the intended suggestions. |
| Ranker.BlankNeverSuggested | app.py:50-130 | A perfume whose nine profile cells are all empty is never suggested, whichever perfume is the reference, as written or intended. |
| Ranker.TwinProfiles | app.py:50-60 | Two perfumes with the same nine profile fields have the same profile. |
| Ranker.TwinSimilarity | app.py:50-64 | For two perfumes with the same profile and a token in it, the all-ones matrix is their catalog's own similarity. |
| Ranker.TiedRanking | app.py:89-93 | On the row [1.0, 1.0] the stable descending sort keeps position 0 first. |
| Ranker.TiedWalk | app.py:95-112 | On the row [1.0, 1.0] with the second perfume chosen and the first sex-compatible, the page shows nothing and the intended ranking shows the first one in green. |
| Ranker.TwinRow | app.py:50-112 | For any matrix of cosines of two perfumes with the same profile holding a token, the second one's row is [1.0, 1.0]. Choosing it, the page shows nothing, where the intended ranking shows the first one in green. |
| Ranker.EarlierTwinDropped | app.py:50-112 | Two "Mixte" perfumes with the profile "Boisé … Cèdre": the all-ones matrix is their catalog's own similarity. Choosing the second, the page shows nothing, where the intended ranking shows the first one in green. |

## Left out

- The Streamlit interface is not modelled: page setup, title, texts, the radio button and select box widgets, the subheader and warning, and each suggestion's expander with its note links (app.py:1-31, 78-81, 91-92, 116-127). The chosen mode and the selected label become parameters.
- The `?note=` query is a parameter (`Option<string>`). Reading the query string is not modelled.
- Reading `base_parfums.xlsx` (app.py:34) is not modelled. The sheet is a parameter: a set of column headers and rows of cells, each either empty or its text. Numbers that pandas reads as numbers, and `astype(str)` turning them into text, are not modelled.
- The expander's text reads the "Marque" column (app.py:116). A sheet without it stops the page at the first suggestion shown. This is not modelled, because it happens in the interface code.
- Vectors.Tokenize: Python's Unicode `\w` is narrowed to ASCII letters and digits, '_', the Latin-1 characters Python counts as alphanumeric (ª ² ³ µ ¹ º ¼ ½ ¾ and U+00C0 to U+00FF except × and ÷) and œ/Œ. Every other character beyond U+00FF is treated as a separator. The lower-casing is narrowed to the same set. Token runs of at least two characters follow sklearn's default pattern.
- Vectors.IsCosine: the cosine is a real number constrained by its equation s²·|a|²·|b|² = (a·b)², with the sign of a·b. Floating-point rounding and the square root are not modelled.
- Ranker.SelfRankedFirst: the self-score of exactly 1.0, and with it the conclusions of Ranker.SelfRankedFirst and Ranker.AsWrittenAgrees, rely on exact reals. In floating point a self-score can come out just below 1.0 (normalizing the counts [1, 1] gives 0.9999999999999998 against itself). A later perfume with proportional counts can then score 1.0, sort ahead of the reference and be dropped by `scores[1:]`. So in floating point the finding below has more triggers than the earlier twin.
- Scores are exact reals. `NaN` cannot occur once the vectors are counts, and rounding in the comparisons against 0.5, 0.3 and 0.1 is not modelled.
- The bar `int(score * 10)` (app.py:114-115) is display only and is left out.
- The dataframe is taken to have its default 0..n−1 index, so `index[0]` (app.py:84) and `iloc` agree.
- The unused loop counter `i` of `enumerate(scores[1:])` (app.py:95) is left out.
- Criteria search has no ranking code in `app.py:1-130`, so none is modelled.
- Vectors.FitTransform models the error that stops the page when no profile has a token. Ranker.ReferenceMode takes the similarity matrix as a parameter, since the page never reaches the mode choice when fitting fails.

## Findings

| source | as written | input that shows it | evidently intended | confidence | as-written member | corrected member |
|---|---|---|---|---|---|---|
| app.py:95 | `scores[1:]` always drops the first sorted entry, on the assumption that it is the reference itself. With ties broken in catalog order, an earlier perfume that scores 1.0 against the reference sorts ahead of it. That perfume is dropped, and then the reference is skipped by `index == idx` too. | Two perfumes, both "Mixte", with the same profile ("Boisé" as family, "Cèdre" as first top note), so that the catalog's similarity row is [1.0, 1.0]; choose the second. | Leave out the reference only, and show the first perfume in green. | not executed | Ranker.EarlierTwinDropped | Ranker.IntendedSuggestions |

`Ranker.ReferenceMode` keeps the page's behaviour as written. `Ranker.HeadIsReference`,
`Ranker.AsWrittenAgrees` and `Ranker.SelfRankedFirst` state when it coincides with
`Ranker.IntendedSuggestions`. `Ranker.IntendedSuggestionsComplete` proves the intended
completeness for the corrected ranking.
