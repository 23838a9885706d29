# Placenta literature analyser: keyword logic

A Dafny model of the keyword logic in `analysis.py` of the placenta
metabolite analyser. The analyser takes gene or metabolite names
("entities"), looks them up in literature services and writes one result
row per entity. Only the following parts compute anything themselves, and
these are what the model covers:

- **Placenta context** (`contains_placenta_context`). A text counts as being
  about the placenta when, after lower-casing, one of five fixed keywords
  occurs in it.
- **Pathway inference** (`infer_pathway`). The lower-cased entity is tested
  against six keyword groups in a fixed order: lipid, neurotransmitter,
  extracellular matrix, DNA repair, apoptosis, immune. The first group with
  a matching keyword decides the pathway label. When no group matches, the
  answer is "Not available".
- **Google Scholar link** (`scholar_link`). Spaces in the entity become
  `+`, and the result goes between a fixed URL prefix and the suffix
  `+placenta+human`.
- **Result row** (`analyze_entity`). The row is assembled from the entity,
  the two literature-search answers (given to the model as plain strings),
  the Scholar link and the pathway.

The files:

- `Strings.dfy` (module `Strings`) models the Python string built-ins the
  analyser uses. These are `str.lower()`/`str.upper()` with ASCII folding,
  the substring test `k in s`, `any(k in s for k in keys)`, and
  `str.replace` with one-character arguments. Each function is tied to an
  independent description: case folding character by character, substring
  as "occurs at some index", replacement character by character.
- `Analysis.dfy` (module `Analysis`) holds the configuration tables and the
  four operations, with the lemmas about them.

Modelling decisions:

- The pathway vocabulary `PATHWAY_GROUPS` is the enumeration `Pathway`.
  `PathwayName` gives the exact label for each entry.
- The classifier's decision is an `Inference`: `Found(p)` or `Unknown`.
  `InferPathway` returns the text the source returns, and
  `InferenceTextInjective` shows that this text determines the decision.
- `Classify` keeps the source's chain of early returns. `FirstMatch` is an
  independent reference: an ordered table of (keywords, pathway) rules
  that answers with the first rule that matches. The lemma
  `ClassifyIsFirstMatch` proves the two agree.
- `analyze_entity` — the two network searches become parameters. The PubMed
  search gives a (DOI, link) pair and the record keeps only the DOI, as the
  source does.

## Model

| member | source | states |
|---|---|---|
| Strings.Lower | analysis.py:53 | lower-casing keeps the length and folds each character on its own (ASCII A–Z to a–z, everything else unchanged) |
| Strings.LowerIdempotent | analysis.py:124 | lower-casing twice gives the same as lower-casing once |
| Strings.LowerOfUpper | analysis.py:53 | lower-casing an upper-cased text gives the same as lower-casing the text itself |
| Strings.LowerConcat | analysis.py:53 | lower-casing a concatenation is the concatenation of the lower-cased parts |
| Strings.IsSubstring | analysis.py:54 | Python's `k in s` as a left-to-right scan of start positions: the empty key is always found and a key longer than `s` never is (the full meaning is in `IsSubstringOccurs`) |
| Strings.IsSubstringOccurs | analysis.py:54 | the left-to-right scan for `k in s` is true exactly when `k` occurs at some index of `s` |
| Strings.SubstringExtend | analysis.py:54 | an occurrence in `t` stays an occurrence in `a + t + b` |
| Strings.SubstringTransitive | analysis.py:54 | a substring of a substring of `s` is a substring of `s` |
| Strings.AnyIn | analysis.py:54 | `any(k in s for k in keys)` is true exactly when some key of the list is a substring of `s` |
| Strings.AnyInOccurs | analysis.py:54 | `any(...)` is true exactly when some key occurs at some index of `s` |
| Strings.AnyInExtend | analysis.py:54 | a key found in `t` is still found in `a + t + b` |
| Strings.AnyInConcat | analysis.py:126-142 | testing `xs + ys` is testing `xs` or testing `ys` |
| Strings.ReplaceChar | analysis.py:115 | the replacement keeps the length, turns each `from` into `to` and leaves every other character where it was |
| Strings.ReplaceCharInverse | analysis.py:115 | when `to` did not occur beforehand, replacing `to` back by `from` gives the original text |
| Analysis.ContainsPlacentaContext | analysis.py:27-54 | true exactly when one of the five placenta keywords occurs at some index of the lower-cased text |
| Analysis.PlacentaCaseInsensitive | analysis.py:53 | the text, its lower-cased form and its upper-cased form get the same answer |
| Analysis.PlacentaMonotone | analysis.py:52-54 | if `t` has placenta context, so does `a + t + b` for every `a` and `b` |
| Analysis.PlacentaShortText | analysis.py:27-33 | a text shorter than eight characters, the empty text included, never has placenta context |
| Analysis.PlacentalIsRedundant | analysis.py:27-33 | the answer is the same without the keyword "placental", because every text containing it contains "placenta" |
| Analysis.InferenceTextInjective | analysis.py:35-46 | the eleven possible pathway answers are written as eleven different texts |
| Analysis.Classify | analysis.py:123-144 | when a pathway is found, it is never Cell Cycle Control, Transcriptional Regulation, Protein Folding and Stability or Cellular Stress Response |
| Analysis.InferPathway | analysis.py:123-144 | the answer is "Not available" or the label of a vocabulary entry, and never one of the four labels no keyword group leads to |
| Analysis.FirstMatch | analysis.py:126-144 | a first-match answer is the pathway of one of the rules tried |
| Analysis.FirstMatchPriority | analysis.py:126-142 | with distinct pathways, the first-match classifier answers rule `k` exactly when rule `k` matches and no earlier rule does |
| Analysis.FirstMatchNone | analysis.py:126-144 | the first-match classifier answers nothing exactly when no rule matches |
| Analysis.ClassifyIsFirstMatch | analysis.py:124-144 | the if-chain equals the first-match classifier over the table lipid, neuro, matrix, DNA, apoptosis, immune on the lower-cased entity |
| Analysis.InferPathwayPriority | analysis.py:126-142 | first match wins: group `k`'s label comes back exactly when a keyword of group `k` occurs in the lower-cased entity and no keyword of an earlier group does |
| Analysis.LipidWins | analysis.py:126-127 | an entity containing a lipid keyword is classified "Lipid Metabolism", whatever DNA, immune or other keywords it also holds |
| Analysis.InferPathwayNotAvailable | analysis.py:126-144 | there are 17 pathway keywords, and "Not available" comes back exactly when none of them occurs in the lower-cased entity |
| Analysis.InferPathwayCaseInsensitive | analysis.py:124 | the entity, its lower-cased form and its upper-cased form get the same pathway |
| Analysis.ScholarLink | analysis.py:114-116 | the link is the fixed prefix, then the entity with each space replaced by `+` and every other character unchanged at its position, then the fixed suffix; its length is prefix + entity + suffix, and it contains no space |
| Analysis.ScholarLinkRoundTrip | analysis.py:115-116 | for an entity without `+`, the query segment with its `+` turned back into spaces is the entity |
| Analysis.ScholarLinkInjective | analysis.py:115-116 | entities without `+` get different links |
| Analysis.ScholarLinkCollision | analysis.py:115 | "a b" and "a+b" get the same link, because an existing `+` is not encoded |
| Analysis.AnalyzeEntity | analysis.py:179-191 | the record keeps the entity, the PubMed DOI and the Europe PMC DOI exactly as given; its Scholar link is the entity's link and its pathway the entity's inferred pathway, so the pathway is "Not available" or a vocabulary label and the link has the expected length and no space |

## Left out

- `search_pubmed` and `search_europe_pmc` (analysis.py:61-107) are HTTP requests, HTML scraping and JSON decoding, with every exception turned into "Not found". In `AnalyzeEntity` their answers are parameters.
- `extract_text_from_pdf` (analysis.py:151-172) is PDF text extraction and OCR through foreign libraries. It is not modelled.
- `analyze_all` (analysis.py:198-208) fans out over a thread pool, and its result order depends on completion order. It is not modelled.
- `save_results` and `run_analysis` (analysis.py:215-236) are spreadsheet reading and writing and console output. They are not modelled.
- app.py consists of HTTP routes, uploads to disk and a module-level `last_output`. It imports `analyze_excel`, which analysis.py does not define, so there is no logic of its own to model.
- Strings.Lower: models ASCII case folding only. Python's `str.lower()` also folds non-ASCII letters, for example `'Ä'` to `'ä'`. So for texts with non-ASCII capitals the model can differ from the source. The same holds for `Strings.Upper`, which is used only to state case-insensitivity.
- `infer_pathway` and `scholar_link` are modelled for string entities only. The entities come from a spreadsheet column (analysis.py:231), which can hold numeric cells. For such an entity, `entity.lower()` (analysis.py:124) and `entity.replace(" ", "+")` (analysis.py:115) raise an error. `future.result()` (analysis.py:205) raises it again, and the whole run stops. The model has no such error path.
- `MAX_THREADS` and `OUTPUT_FILE` (analysis.py:24-25) configure the parts left out above.
