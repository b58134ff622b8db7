# pepnet `Encoder` in Dafny

This project models the `Encoder` class of pepnet (`pepnet/encoder.py`). The class turns
peptide strings into arrays for neural networks. It covers:

- **Vocabulary.** An ordered token-to-name table with a parallel token-to-index
  dictionary. The gap `-` is added when sequences may vary in length, then start `^`,
  then stop `$`, then the alphabet letters in the order given. Each token's index is
  its insertion position.
- **Preparation.** `prepare_sequences` adds the start and stop affixes and can pad on
  the right with `-`. `_validate_peptide_lengths` checks the lengths.
  `_validate_and_prepare_peptides` computes the effective length.
- **Encoders.**
  - index lists (a pure function);
  - the index matrix;
  - the one-hot tensor;
  - the pairwise-property tensor behind `encode_pmbec` and `encode_blosum`;
  - the FOFE (fixed-size ordinally-forgetting) encoding.

  Every encoder except the index lists fills a zeroed array in nested loops.

Layout:

- `Wrappers.dfy`: `Option`, `Result` and `Outcome`. They stand in for the exceptions
  the class raises.
- `Vocabulary.dfy`: the configuration, and the token table as a pure specification
  (`AddEntry`, `AddEntries`, `IndexTable`).
- `Preparation.dfy`: preparation and length validation.
- `Encodings.dfy`: what each encoder puts in each cell, as functions. It also holds
  `encode_index_lists` and the FOFE sums with their lemmas.
- `Encoder.dfy`: `class Encoder`. Its fields `tokens`, `names` and `indexDict` are
  the `tokens` list, the `amino_acid_names` list and `index_dict`. Its methods grow
  them in place and fill the output arrays. Each method is proved against the
  functions above.

How the model stands in for exceptions:

- A failed `assert` in `_add_token` becomes `VocabError`.
- A `ValueError` from length validation becomes `TooLong` or `WrongLength`.
- `max()` over an empty batch becomes `EmptyBatch`.
- The `assert not add_normalized_*` checks in `encode_index_array` become
  `UnsupportedExtraFeatures`.
- A `KeyError` on a character with no index becomes `UnknownToken(c)`. Here `c` is
  the first such character in row-major order, which is where the Python loops stop.

Where the behaviour one might expect from a description of the class and the code differ, the model
follows the code:

- `prepare_sequences` raises a truthy padding target by one for each enabled affix.
  So `["AC"]` with target 6 and both affixes gives `"^AC$----"`, not `"^AC$--"`
  (`PrepareExampleBothAffixes`).
- The array encoders never pad the strings. Positions past a peptide's end keep the
  zero fill. In the one-hot tensor those positions have no channel set; the gap
  channel is not set either (`OneHotSum`, `EncodeOnehot`).
- In fixed-length mode with an explicit maximum, an empty batch is accepted. `max()`
  is only reached when no maximum is given, or in variable-length mode.

## Model

| member | source | states |
|---|---|---|
| PepnetEncoder.Encoder.Init | pepnet/encoder.py:68-76 | the tables start empty (and consistent) and the configuration and alphabet are stored; such an object is not yet a constructed encoder |
| PepnetEncoder.Encoder.Create | pepnet/encoder.py:34-88 | construction succeeds exactly when adding gap/start/stop (as enabled) then the alphabet succeeds, failing with the first offending token otherwise; on success the tables are exactly those tokens and names in that order, the invariant holds and the size is variable + start + stop + alphabet length; the configuration defaults to variable length with no affixes and no extra features |
| PepnetEncoder.Encoder.AddStructuralTokens | pepnet/encoder.py:78-85 | gap, start and stop are added in that order as enabled; what remains to add determines the final outcome |
| PepnetEncoder.Encoder.AddNext | pepnet/encoder.py:87-88 | adding one pending entry consumes it without changing what the remaining entries produce |
| PepnetEncoder.Encoder.AddAlphabet | pepnet/encoder.py:87-88 | every alphabet letter is added with its full name, in order; construction then fails with the first offending token, or the tables are exactly what adding all configured entries produces |
| PepnetEncoder.Encoder.BuiltIsValid | pepnet/encoder.py:78-88 | tables built from exactly the configured entries hold those tokens and names and satisfy the class invariant |
| PepnetEncoder.Encoder.AddToken | pepnet/encoder.py:90-95 | a token that is not one character, or is already present, fails and changes nothing; otherwise it is appended with its name at index `len(index_dict)`, earlier entries untouched, and the table stays consistent |
| PepnetEncoder.Encoder.SetItem | pepnet/encoder.py:145-146 | the same effect as adding a token, and the configured layout (gap, start, stop, alphabet first) is preserved |
| PepnetEncoder.Encoder.GetItem | pepnet/encoder.py:142-143 | a name is returned exactly for keys that are a stored token, and it is that token's name |
| PepnetEncoder.Encoder.Length | pepnet/encoder.py:148-149 | the length equals the number of indices and bounds every index |
| PepnetEncoder.Encoder.Tokens | pepnet/encoder.py:120-132 | the tokens list is as long as the encoder, each token is at its own index, and it holds exactly the indexed tokens |
| PepnetEncoder.Encoder.AminoAcidNames | pepnet/encoder.py:134-136 | the names list runs parallel to the tokens, each entry being what lookup of that token returns |
| PepnetEncoder.Encoder.AddExtraFeatures | pepnet/encoder.py:218-220 | with both extra channels disabled the array is returned unchanged |
| PepnetEncoder.Encoder.EncodeIndexArray | pepnet/encoder.py:196-216 | fails when an extra-feature flag is set; otherwise succeeds exactly for a batch passing validation whose every character is indexed, with the same error otherwise; the result is `n x effective_length` with each cell the token's index inside the peptide and 0 past its end; the matrix is newly allocated; the maximum defaults to none |
| PepnetEncoder.Encoder.IndexArray | pepnet/encoder.py:208-216 | over a prepared batch that fits the length, the matrix holds every cell as the index of its character or 0 past the end, or the first unknown character is located row by row; the matrix is newly allocated |
| PepnetEncoder.Encoder.FillIndexRow | pepnet/encoder.py:211-215 | one row gets the token indices of its peptide, other rows are untouched, and an unknown character is reported at its first position |
| PepnetEncoder.Encoder.EncodeOnehot | pepnet/encoder.py:278-295 | succeeds exactly for a validated, fully indexed batch; the result is `n x effective_length x vocabulary` with channel `k` set exactly when the position lies inside the peptide and its token has index `k`; the tensor is newly allocated; the maximum defaults to none |
| PepnetEncoder.Encoder.OnehotArray | pepnet/encoder.py:289-294 | over a prepared batch that fits the length, the tensor is newly allocated and has exactly the one-hot cells, or the first unknown character is located row by row |
| PepnetEncoder.Encoder.FillOnehotRow | pepnet/encoder.py:292-294 | one row gets one set channel per position of its peptide, other rows untouched, first unknown character reported |
| PepnetEncoder.Encoder.EncodeFromPairwiseProperties | pepnet/encoder.py:239-264 | succeeds exactly for a validated batch using only alphabet letters and gap/start/stop; each cell `(i, j, k)` is the feature row of character `j` of peptide `i` at `k`, zero past its end; the tensor is newly allocated |
| PepnetEncoder.Encoder.FeatureArray | pepnet/encoder.py:243-263 | over a prepared batch that fits the length, the tensor is newly allocated and has every cell as its feature-row entry or zero past the end, or the first character without a row is located row by row |
| PepnetEncoder.Encoder.FeatureRows | pepnet/encoder.py:246-260 | the feature table has a row for exactly the alphabet letters and gap/start/stop, each being the re-indexed matrix row or zeros |
| PepnetEncoder.Encoder.FillFeatureRow | pepnet/encoder.py:261-263 | one row gets each position's feature row, other rows untouched, first character without a row reported |
| PepnetEncoder.Encoder.EncodeFofe | pepnet/encoder.py:297-331 | no length check; succeeds exactly when every character of the affixed peptides is indexed, otherwise fails with the first unknown one; width is the vocabulary size, doubled when bidirectional; each entry is the forward sum of `alpha^(l-1-j)` (or backward sum of `alpha^j`) over the positions holding that token; the matrix is newly allocated; `alpha` defaults to 0.7 and `bidirectional` to false |
| PepnetEncoder.Encoder.FillFofeRow | pepnet/encoder.py:324-330 | one row accumulates the forward and backward weights of its peptide, other rows untouched, first unknown character reported |
| Vocabulary.StructuralEntries | pepnet/encoder.py:78-85 | as many structural entries as enabled flags |
| Vocabulary.AddEntriesSpec | pepnet/encoder.py:87-95 | adding a batch of tokens succeeds iff every token is one character and none repeats, and then appends exactly those tokens and names in order |
| Vocabulary.AddEntriesFromEmpty | pepnet/encoder.py:68-88 | a table built from nothing holds exactly the entries' tokens and names, each token once |
| Vocabulary.AddEntriesAppend | pepnet/encoder.py:78-88 | adding two batches in a row is adding their concatenation |
| Vocabulary.IndicesContiguous | pepnet/encoder.py:94 | the indices of a consistent table are exactly `0 .. len-1` |
| Vocabulary.IndexTableDistinct | pepnet/encoder.py:92-93 | a consistent table holds no token twice |
| Vocabulary.IndexTableAppend | pepnet/encoder.py:94-95 | appending a fresh token at index `len(index_dict)` keeps token and index tables consistent |
| Vocabulary.ConfiguredOrder | pepnet/encoder.py:120-132 | in a constructed encoder the gap has index 0, start follows it, stop follows start, and alphabet letter `k` has index (number of structural tokens) + `k` |
| Vocabulary.PrefixTokens | pepnet/encoder.py:120-132 | a table that starts with the configured entries holds entry `k`'s token at position `k` |
| Preparation.Affix | pepnet/encoder.py:103-111 | the affixed peptide is one longer per enabled affix |
| Preparation.PadRight | pepnet/encoder.py:113-117 | padding keeps the string as a prefix, adds only `-`, never truncates, and reaches the target length |
| Preparation.PrepareSequences | pepnet/encoder.py:97-118 | as many outputs as inputs; output `i` is the affixed peptide followed only by `-`, of length `max(len, target) + start + stop`; with no target (the default) it is exactly the affixed peptide |
| Preparation.PrepareExampleBothAffixes | pepnet/encoder.py:103-117 | `["AC"]`, target 6, both affixes gives `"^AC$----"` |
| Preparation.PrepareExampleNoAffixes | pepnet/encoder.py:113-117 | `["AC"]`, target 5, no affixes gives `"AC---"` |
| Preparation.Longest | pepnet/encoder.py:157 | the maximum length bounds every peptide and is attained |
| Preparation.FirstWithLength | pepnet/encoder.py:162 | the first position whose length is (or is not) the given value, or none when there is none |
| Preparation.ValidatePeptideLengths | pepnet/encoder.py:151-174 | empty batch without a usable maximum fails; variable mode fails iff the longest exceeds the maximum, fixed mode iff some length differs; the errors carry the observed length, limit and the first offending example in batch order; success returns the given maximum or the longest length |
| Preparation.ValidateAndPreparePeptides | pepnet/encoder.py:176-184 | succeeds exactly when validation does, with the same error; returns the unpadded affixed peptides and the limit plus the affixes; every prepared peptide fits in it, exactly in fixed mode |
| Preparation.PaddedPreparation | pepnet/encoder.py:176-184 | padding a validated peptide to the effective length is what `prepare_sequences` gives with the checked limit as target |
| Encodings.FirstUnknownIn | pepnet/encoder.py:192 | none exactly when every character is known; otherwise an unknown character of the peptide |
| Encodings.FirstUnknown | pepnet/encoder.py:191-194 | none exactly when every character of every peptide is known; otherwise an unknown character occurring in some peptide |
| Encodings.FirstUnknownAt | pepnet/encoder.py:211-215 | the first unknown character in row-major order is the one the loops stop at |
| Encodings.EncodeIndexLists | pepnet/encoder.py:186-194 | succeeds exactly when every character of the affixed peptides is indexed, with no length check; one list per peptide, of the affixed length; otherwise fails with an unindexed character of some peptide |
| Encodings.IndexListsRoundTrip | pepnet/encoder.py:186-194 | decoding each index list through the token table gives back the affixed peptide |
| Encodings.CheckedBatch | pepnet/encoder.py:206-215 | a batch passes exactly when length validation passes and all its prepared characters are known; the error is validation's, or an unknown character |
| Encodings.CheckedBatchRejects | pepnet/encoder.py:211-215 | a batch whose first unknown character (row-major) is at `(i, j)` is refused with that character |
| Encodings.IndexRowRoundTrip | pepnet/encoder.py:213-215 | with the gap at index 0, decoding an index-matrix row gives the peptide right-padded with `-` |
| Encodings.IndexArrayExtendsLists | pepnet/encoder.py:186-216 | the index matrix rows are the index lists of the same batch, zero-filled to the effective length |
| Encodings.IndexZeroExactlyPastEnd | pepnet/encoder.py:213-215 | with the gap at index 0 and no gap inside the peptide, a cell is zero exactly past the peptide's end |
| Encodings.OneHotSum | pepnet/encoder.py:291-294 | summed over the channels, a position inside the peptide holds exactly one and a position past its end none |
| Encodings.LetterRow | pepnet/encoder.py:251-255 | a letter's row has one entry per alphabet letter |
| Encodings.FeatureRow | pepnet/encoder.py:251-260 | gap, start and stop get the zero vector; letter `a` gets entry `k` = `M[idx(a)][idx(alphabet[k])]`, of alphabet length |
| Encodings.LettersSnoc | pepnet/encoder.py:251-255 | the letter set of a longer alphabet prefix adds exactly the next letter |
| Encodings.ForwardMatchesRecurrence | pepnet/encoder.py:324-328 | the forward block equals the FOFE recurrence `z(t) = alpha * z(t-1) + e(t)` |
| Encodings.ForwardSnoc | pepnet/encoder.py:328 | appending a token scales every earlier forward contribution by `alpha` |
| Encodings.BackwardCons | pepnet/encoder.py:330 | prepending a token scales every later backward contribution by `alpha` |
| Encodings.BackwardIsReversedForward | pepnet/encoder.py:328-330 | the backward block of a peptide is the forward block of its reversal |
| Encodings.AbsentTokenIsZero | pepnet/encoder.py:324-330 | a token that does not occur has zero forward and backward entries |
| Encodings.FofeExample | pepnet/encoder.py:326-328 | `"AC"` with alpha 0.5 gives forward entries 0.5 for `A` and 1.0 for `C` |

## Left out

- `setup.py` is packaging metadata and file I/O, so it is not modelled.
- The `Serializable` base class and the `require_instance` type check are not
  modelled. They are library and dynamic-typing plumbing; peptides are always a
  `seq<string>` here.
- The pepdata tables (`pmbec_matrix`, `blosum62_matrix`, `amino_acid_letter_indices`,
  `canonical_amino_acids`) are external data. The matrix and the canonical letter
  index are parameters of `EncodeFromPairwiseProperties`, and the alphabet is a
  parameter of `Create`.
- `encode_pmbec` and `encode_blosum` have no members of their own. Each one only
  passes its matrix to `EncodeFromPairwiseProperties`.
- The numeric branch of `_add_extra_features` (the position and centrality channels)
  is not modelled. It is float32 arithmetic, it divides by zero for length-1
  peptides, and it relies on NumPy broadcasting.
- EncodeOnehot: requires both extra-feature flags to be off, so the branch with extra
  channels is not covered.
- EncodeFromPairwiseProperties: requires both extra-feature flags to be off. It also
  requires an alphabet of 20 letters, because the source hard-codes a feature width
  of 20.
- AddExtraFeatures: requires both extra-feature flags to be off, so only the
  pass-through branch is modelled.
- FOFE is computed over exact `real` arithmetic. Float64 rounding and NumPy `**` are
  not modelled.
- Array dtypes (`int`, `bool`, `float32`, `float`) are not modelled. Each array is
  modelled as an array of `nat`, `bool` or `real` that starts all zero.
- An explicit maximum length is a natural number. The negative values Python would
  accept are not modelled.
- The default alphabet `canonical_amino_acids` comes from pepdata, so `Create` has no
  default for its alphabet. The other defaults are kept as Dafny default parameters:
  the configuration, `max_peptide_length=None`, `padded_peptide_length=None`,
  `alpha=0.7` and `bidirectional=False`.
- The `index_dict` property is not a separate member. It is the field `indexDict`
  itself.
