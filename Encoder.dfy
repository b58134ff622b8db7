/** The `Encoder` object: its token table, which the constructor and
    `__setitem__` grow in place, and the encoders that fill freshly zeroed
    arrays position by position. */
module PepnetEncoder {
  import opened Wrappers
  import opened Vocabulary
  import opened Preparation
  import opened Encodings

  class Encoder {
    const alphabet: seq<AminoAcid>
    const config: Config

    /** The keys of the ordered token-to-name table, in insertion order. */
    var tokens: seq<char>
    /** The names, parallel to `tokens`. */
    var names: seq<string>
    /** Token to index. */
    var indexDict: map<char, nat>

    /** The two tables agree: every token sits at its index, names run parallel. */
    ghost predicate IndexConsistent()
      reads this
    {
      IndexTable(tokens, indexDict) && |names| == |tokens|
    }

    /** The object invariant once construction has finished: the table starts
        with the configured tokens (gap, start, stop, alphabet) in that order. */
    ghost predicate Valid()
      reads this
    {
      var entries := ConfiguredEntries(config, alphabet);
      && IndexConsistent()
      && SingleChars(entries)
      && |entries| <= |tokens|
      && tokens[..|entries|] == Chars(entries)
      && names[..|entries|] == Names(entries)
    }

    /** The empty tables and the stored configuration, before any token is
        added. An object fresh from `Init` is not yet a constructed encoder
        (it need not satisfy `Valid()`); `Create` is what `__init__` does. */
    constructor Init(alphabet: seq<AminoAcid>, config: Config)
      ensures this.alphabet == alphabet && this.config == config
      ensures tokens == [] && names == [] && indexDict == map[]
      ensures IndexConsistent()
    {
      this.alphabet := alphabet;
      this.config := config;
      tokens := [];
      names := [];
      indexDict := map[];
    }

    /** `__init__`: add gap, start and stop as configured, then every alphabet
        letter; the first token that is not one character or is already
        present makes construction fail. */
    static method Create(alphabet: seq<AminoAcid>, config: Config := Config(true, false, false, false, false)) returns (r: Result<Encoder, VocabError>)
      ensures r.Success? <==> AddEntries([], [], ConfiguredEntries(config, alphabet)).Success?
      ensures r.Failure? ==> AddEntries([], [], ConfiguredEntries(config, alphabet)) == Failure(r.error)
      ensures r.Success? ==>
        && fresh(r.value)
        && r.value.Valid()
        && r.value.alphabet == alphabet && r.value.config == config
        && r.value.tokens == Chars(ConfiguredEntries(config, alphabet))
        && r.value.names == Names(ConfiguredEntries(config, alphabet))
        && r.value.Length() == NumStructural(config) + |alphabet|
    {
      var e := new Encoder.Init(alphabet, config);
      var ok := e.AddStructuralTokens();
      if ok.Fail? {
        return Failure(ok.error);
      }
      ok := e.AddAlphabet();
      if ok.Fail? {
        return Failure(ok.error);
      }
      e.BuiltIsValid();
      return Success(e);
    }

    /** The second half of construction: every alphabet letter with its full
        name, in order, after the structural tokens. */
    method AddAlphabet() returns (r: Outcome<VocabError>)
      requires IndexConsistent()
      requires var all := ConfiguredEntries(config, alphabet);
        AddEntries(tokens, names, all[NumStructural(config)..]) == AddEntries([], [], all)
      modifies this
      ensures IndexConsistent()
      ensures r.Fail? ==> AddEntries([], [], ConfiguredEntries(config, alphabet)) == Failure(r.error)
      ensures r.Pass? ==> AddEntries([], [], ConfiguredEntries(config, alphabet)) == Success((tokens, names))
    {
      ghost var all := ConfiguredEntries(config, alphabet);
      ghost var letters := AlphabetEntries(alphabet);
      assert all[NumStructural(config)..] == letters;
      for k := 0 to |alphabet|
        invariant IndexConsistent()
        invariant AddEntries(tokens, names, letters[k..]) == AddEntries([], [], all)
      {
        r := AddNext(alphabet[k].letter, alphabet[k].fullName, letters, k);
        if r.Fail? {
          return;
        }
      }
      assert letters[|alphabet|..] == [];
      r := Pass;
    }

    /** Tables built from exactly the configured entries satisfy the invariant. */
    lemma BuiltIsValid()
      requires IndexConsistent()
      requires AddEntries([], [], ConfiguredEntries(config, alphabet)) == Success((tokens, names))
      ensures Valid()
      ensures tokens == Chars(ConfiguredEntries(config, alphabet))
      ensures names == Names(ConfiguredEntries(config, alphabet))
    {
      var all := ConfiguredEntries(config, alphabet);
      AddEntriesFromEmpty(all, tokens, names);
      assert tokens[..|all|] == tokens;
      assert names[..|all|] == names;
    }

    /** The first half of construction: gap, start and stop, each when enabled. */
    method AddStructuralTokens() returns (r: Outcome<VocabError>)
      requires IndexConsistent() && tokens == [] && names == []
      modifies this
      ensures IndexConsistent()
      ensures r.Fail? ==> AddEntries([], [], ConfiguredEntries(config, alphabet)) == Failure(r.error)
      ensures r.Pass? ==>
        var all := ConfiguredEntries(config, alphabet);
        AddEntries(tokens, names, all[NumStructural(config)..]) == AddEntries([], [], all)
    {
      ghost var all := ConfiguredEntries(config, alphabet);
      ghost var structural := StructuralEntries(config);
      ghost var pos := 0;
      assert all[0..] == all;
      if config.variableLengthSequences {
        assert all[pos] == structural[0] == TokenEntry([Gap], "Gap");
        r := AddNext([Gap], "Gap", all, pos);
        if r.Fail? {
          return;
        }
        pos := pos + 1;
      }
      if config.addStartTokens {
        assert all[pos] == structural[pos] == TokenEntry([Start], "Start");
        r := AddNext([Start], "Start", all, pos);
        if r.Fail? {
          return;
        }
        pos := pos + 1;
      }
      if config.addStopTokens {
        assert all[pos] == structural[pos] == TokenEntry([Stop], "Stop");
        r := AddNext([Stop], "Stop", all, pos);
        if r.Fail? {
          return;
        }
        pos := pos + 1;
      }
      r := Pass;
    }

    /** One constructor step: add the entry at `pos` of the pending list,
        keeping what the rest of the list will produce. */
    method AddNext(token: string, name: string, ghost entries: seq<TokenEntry>, ghost pos: nat)
      returns (r: Outcome<VocabError>)
      requires IndexConsistent()
      requires pos < |entries| && entries[pos] == TokenEntry(token, name)
      modifies this
      ensures IndexConsistent()
      ensures r.Fail? ==> old(AddEntries(tokens, names, entries[pos..])) == Failure(r.error)
      ensures r.Pass? ==> AddEntries(tokens, names, entries[pos + 1..]) == old(AddEntries(tokens, names, entries[pos..]))
    {
      assert entries[pos..][0] == entries[pos];
      assert entries[pos..][1..] == entries[pos + 1..];
      r := AddToken(token, name);
    }

    /** `_add_token`: append a one-character token that is not yet present, at
        index `len(index_dict)`; anything else fails and changes nothing. */
    method AddToken(token: string, name: string) returns (r: Outcome<VocabError>)
      requires IndexConsistent()
      modifies this
      ensures IndexConsistent()
      ensures AddEntry(old(tokens), old(names), TokenEntry(token, name))
           == (if r.Pass? then Success((tokens, names)) else Failure(r.error))
      ensures r.Pass? ==> indexDict == old(indexDict)[token[0] := |old(indexDict)|]
      ensures r.Fail? ==> tokens == old(tokens) && names == old(names) && indexDict == old(indexDict)
      ensures old(Valid()) ==> Valid()
    {
      if |token| != 1 {
        return Fail(InvalidToken(token));
      }
      var c := token[0];
      if c in indexDict || c in tokens {
        return Fail(DuplicateToken(token));
      }
      IndexTableAppend(tokens, indexDict, c);
      ghost var before := tokens;
      ghost var namesBefore := names;
      indexDict := indexDict[c := |indexDict|];
      tokens := tokens + [c];
      names := names + [name];
      ghost var n := |ConfiguredEntries(config, alphabet)|;
      if n <= |before| {
        assert tokens[..n] == before[..n];
        assert names[..n] == namesBefore[..n];
      }
      return Pass;
    }

    /** `__setitem__`: add a token after construction, keeping the configured layout. */
    method SetItem(token: string, name: string) returns (r: Outcome<VocabError>)
      requires Valid()
      modifies this
      ensures Valid()
      ensures AddEntry(old(tokens), old(names), TokenEntry(token, name))
           == (if r.Pass? then Success((tokens, names)) else Failure(r.error))
      ensures r.Pass? ==> indexDict == old(indexDict)[token[0] := |old(indexDict)|]
      ensures r.Fail? ==> tokens == old(tokens) && names == old(names) && indexDict == old(indexDict)
    {
      r := AddToken(token, name);
    }

    /** `__getitem__`: the name stored for a token, or nothing (KeyError) for an unknown key. */
    function GetItem(key: string): (r: Option<string>)
      reads this
      requires IndexConsistent()
      ensures r.Some? <==> exists i :: 0 <= i < |tokens| && [tokens[i]] == key
      ensures forall i :: 0 <= i < |tokens| && [tokens[i]] == key ==> r == Some(names[i])
    {
      if |key| == 1 && key[0] in indexDict then Some(names[indexDict[key[0]]]) else None
    }

    /** The `tokens` property: the table's keys in insertion order, each at its own index. */
    function Tokens(): (r: seq<char>)
      reads this
      requires IndexConsistent()
      ensures |r| == Length()
      ensures forall i :: 0 <= i < |r| ==> r[i] in indexDict && indexDict[r[i]] == i
      ensures forall c :: c in indexDict <==> c in r
    {
      tokens
    }

    /** The `amino_acid_names` property: the name of every token, in token order. */
    function AminoAcidNames(): (r: seq<string>)
      reads this
      requires IndexConsistent()
      ensures |r| == |Tokens()|
      ensures forall i :: 0 <= i < |r| ==> GetItem([Tokens()[i]]) == Some(r[i])
    {
      names
    }

    /** `__len__`: the number of tokens, which is also the number of indices. */
    function Length(): (n: nat)
      reads this
      requires IndexConsistent()
      ensures n == |indexDict|
      ensures forall c :: c in indexDict ==> indexDict[c] < n
    {
      |tokens|
    }

    /** `_add_extra_features` with both extra channels disabled: the array is returned as it is. */
    function AddExtraFeatures<A>(x: A, peptides: seq<string>): (r: A)
      requires !config.addNormalizedPosition && !config.addNormalizedCentrality
      ensures r == x
    {
      x
    }

    /** `encode_index_array`: an `n x len` matrix holding each prepared
        peptide's token indices, zero past its end. */
    method EncodeIndexArray(peptides: seq<string>, maxLength: Option<nat> := None) returns (r: Result<array2<nat>, EncodeError>)
      ensures config.addNormalizedCentrality || config.addNormalizedPosition ==> r == Failure(UnsupportedExtraFeatures)
      ensures r.Success? ==> fresh(r.value)
      ensures !config.addNormalizedCentrality && !config.addNormalizedPosition ==>
        (r.Success? <==> CheckedBatch(config, peptides, maxLength, indexDict.Keys).Success?)
      ensures !config.addNormalizedCentrality && !config.addNormalizedPosition && r.Failure? ==>
        r.error == CheckedBatch(config, peptides, maxLength, indexDict.Keys).error
      ensures r.Success? ==>
        && CheckedBatch(config, peptides, maxLength, indexDict.Keys).Success?
        && var (prepared, len) := CheckedBatch(config, peptides, maxLength, indexDict.Keys).value;
        && r.value.Length0 == |peptides|
        && r.value.Length1 == len
        && forall i, j :: 0 <= i < |peptides| && 0 <= j < len ==> r.value[i, j] == IndexCell(indexDict, prepared[i], j)
    {
      if config.addNormalizedCentrality || config.addNormalizedPosition {
        return Failure(UnsupportedExtraFeatures);
      }
      var validated := ValidateAndPreparePeptides(config, peptides, maxLength);
      if validated.Failure? {
        return Failure(validated.error);
      }
      var prepared, len := validated.value.0, validated.value.1;
      var x, unknownAt := IndexArray(prepared, len);
      if unknownAt.Some? {
        CheckedBatchRejects(config, peptides, maxLength, indexDict.Keys, unknownAt.value.0, unknownAt.value.1);
        return Failure(UnknownToken(prepared[unknownAt.value.0][unknownAt.value.1]));
      }
      return Success(x);
    }

    /** The loops of `encode_index_array` over a prepared batch: the filled
        matrix, or the row-major position of the first unknown character. */
    method IndexArray(prepared: seq<string>, len: nat) returns (x: array2<nat>, unknownAt: Option<(nat, nat)>)
      requires forall a :: 0 <= a < |prepared| ==> |prepared[a]| <= len
      ensures fresh(x)
      ensures x.Length0 == |prepared| && x.Length1 == len
      ensures unknownAt.None? ==>
        && AllKnown(prepared, indexDict.Keys)
        && forall i, j :: 0 <= i < |prepared| && 0 <= j < len ==> x[i, j] == IndexCell(indexDict, prepared[i], j)
      ensures unknownAt.Some? ==>
        && unknownAt.value.0 < |prepared|
        && (forall a :: 0 <= a < unknownAt.value.0 ==> RowKnown(prepared[a], indexDict.Keys))
        && FirstUnknownPos(prepared[unknownAt.value.0], indexDict.Keys, unknownAt.value.1)
    {
      var n := |prepared|;
      x := new nat[n, len]((_, _) => 0);
      for i := 0 to n
        invariant forall a :: 0 <= a < i ==> RowKnown(prepared[a], indexDict.Keys)
        invariant forall a, b :: 0 <= a < i && 0 <= b < len ==> x[a, b] == IndexCell(indexDict, prepared[a], b)
        invariant forall a, b :: i <= a < n && 0 <= b < len ==> x[a, b] == 0
      {
        var unknownInRow := FillIndexRow(x, i, prepared[i]);
        if unknownInRow.Some? {
          return x, Some((i, unknownInRow.value));
        }
      }
      return x, None;
    }

    /** One row of `encode_index_array`'s loop: the token indices of `p`,
        stopping at its first unknown character. */
    method FillIndexRow(x: array2<nat>, i: nat, p: string) returns (unknownAt: Option<nat>)
      requires i < x.Length0 && |p| <= x.Length1
      requires forall b :: 0 <= b < x.Length1 ==> x[i, b] == 0
      modifies x
      ensures forall a, b :: 0 <= a < x.Length0 && a != i && 0 <= b < x.Length1 ==> x[a, b] == old(x[a, b])
      ensures unknownAt.None? ==>
        KnownChars(p, indexDict) && forall b :: 0 <= b < x.Length1 ==> x[i, b] == IndexCell(indexDict, p, b)
      ensures unknownAt.Some? ==> FirstUnknownPos(p, indexDict.Keys, unknownAt.value)
    {
      for j := 0 to |p|
        invariant forall b :: 0 <= b < j ==> p[b] in indexDict
        invariant forall a, b :: 0 <= a < x.Length0 && a != i && 0 <= b < x.Length1 ==> x[a, b] == old(x[a, b])
        invariant forall b :: 0 <= b < x.Length1 ==> x[i, b] == (if b < j then indexDict[p[b]] else 0)
      {
        if p[j] !in indexDict {
          return Some(j);
        }
        x[i, j] := indexDict[p[j]];
      }
      return None;
    }

    /** `encode_onehot`: an `n x len x |vocabulary|` boolean tensor with one set
        channel per position inside a peptide, the token's index, and none
        past its end. */
    method EncodeOnehot(peptides: seq<string>, maxLength: Option<nat> := None) returns (r: Result<array3<bool>, EncodeError>)
      requires IndexConsistent()
      requires !config.addNormalizedPosition && !config.addNormalizedCentrality
      ensures r.Success? <==> CheckedBatch(config, peptides, maxLength, indexDict.Keys).Success?
      ensures r.Failure? ==> r.error == CheckedBatch(config, peptides, maxLength, indexDict.Keys).error
      ensures r.Success? ==> fresh(r.value)
      ensures r.Success? ==>
        && CheckedBatch(config, peptides, maxLength, indexDict.Keys).Success?
        && var (prepared, len) := CheckedBatch(config, peptides, maxLength, indexDict.Keys).value;
        && r.value.Length0 == |peptides|
        && r.value.Length1 == len
        && r.value.Length2 == |indexDict|
        && forall i, j, k :: 0 <= i < |peptides| && 0 <= j < len && 0 <= k < |indexDict| ==>
             r.value[i, j, k] == OneHotCell(indexDict, prepared[i], j, k)
    {
      var validated := ValidateAndPreparePeptides(config, peptides, maxLength);
      if validated.Failure? {
        return Failure(validated.error);
      }
      var prepared, len := validated.value.0, validated.value.1;
      var x, unknownAt := OnehotArray(prepared, len);
      if unknownAt.Some? {
        CheckedBatchRejects(config, peptides, maxLength, indexDict.Keys, unknownAt.value.0, unknownAt.value.1);
        return Failure(UnknownToken(prepared[unknownAt.value.0][unknownAt.value.1]));
      }
      return Success(AddExtraFeatures(x, prepared));
    }

    /** The loops of `encode_onehot` over a prepared batch: the filled tensor,
        or the row-major position of the first unknown character. */
    method OnehotArray(prepared: seq<string>, len: nat) returns (x: array3<bool>, unknownAt: Option<(nat, nat)>)
      requires IndexConsistent()
      requires forall a :: 0 <= a < |prepared| ==> |prepared[a]| <= len
      ensures fresh(x)
      ensures x.Length0 == |prepared| && x.Length1 == len && x.Length2 == |indexDict|
      ensures unknownAt.None? ==>
        && AllKnown(prepared, indexDict.Keys)
        && forall i, j, k :: 0 <= i < |prepared| && 0 <= j < len && 0 <= k < |indexDict| ==>
             x[i, j, k] == OneHotCell(indexDict, prepared[i], j, k)
      ensures unknownAt.Some? ==>
        && unknownAt.value.0 < |prepared|
        && (forall a :: 0 <= a < unknownAt.value.0 ==> RowKnown(prepared[a], indexDict.Keys))
        && FirstUnknownPos(prepared[unknownAt.value.0], indexDict.Keys, unknownAt.value.1)
    {
      var n := |prepared|;
      var symbols := |indexDict|;
      x := new bool[n, len, symbols]((_, _, _) => false);
      for i := 0 to n
        invariant forall a :: 0 <= a < i ==> RowKnown(prepared[a], indexDict.Keys)
        invariant forall a, b, k :: 0 <= a < i && 0 <= b < len && 0 <= k < symbols ==>
          x[a, b, k] == OneHotCell(indexDict, prepared[a], b, k)
        invariant forall a, b, k :: i <= a < n && 0 <= b < len && 0 <= k < symbols ==> !x[a, b, k]
      {
        var unknownInRow := FillOnehotRow(x, i, prepared[i]);
        if unknownInRow.Some? {
          return x, Some((i, unknownInRow.value));
        }
      }
      return x, None;
    }

    /** One row of `encode_onehot`'s loop: set each position's channel,
        stopping at the first unknown character. */
    method FillOnehotRow(x: array3<bool>, i: nat, p: string) returns (unknownAt: Option<nat>)
      requires IndexConsistent()
      requires i < x.Length0 && |p| <= x.Length1 && x.Length2 == |indexDict|
      requires forall b, k :: 0 <= b < x.Length1 && 0 <= k < x.Length2 ==> !x[i, b, k]
      modifies x
      ensures forall a, b, k :: 0 <= a < x.Length0 && a != i && 0 <= b < x.Length1 && 0 <= k < x.Length2 ==>
        x[a, b, k] == old(x[a, b, k])
      ensures unknownAt.None? ==>
        && KnownChars(p, indexDict)
        && forall b, k :: 0 <= b < x.Length1 && 0 <= k < x.Length2 ==> x[i, b, k] == OneHotCell(indexDict, p, b, k)
      ensures unknownAt.Some? ==> FirstUnknownPos(p, indexDict.Keys, unknownAt.value)
    {
      for j := 0 to |p|
        invariant forall b :: 0 <= b < j ==> p[b] in indexDict
        invariant forall a, b, k :: 0 <= a < x.Length0 && a != i && 0 <= b < x.Length1 && 0 <= k < x.Length2 ==>
          x[a, b, k] == old(x[a, b, k])
        invariant forall b, k :: 0 <= b < x.Length1 && 0 <= k < x.Length2 ==>
          x[i, b, k] == (b < j && indexDict[p[b]] == k)
      {
        if p[j] !in indexDict {
          return Some(j);
        }
        x[i, j, indexDict[p[j]]] := true;
      }
      return None;
    }

    /** `_encode_from_pairwise_properties` (behind `encode_pmbec` and
        `encode_blosum`): each position holds the feature row of its
        character, zero past the peptide's end. */
    method EncodeFromPairwiseProperties(
      peptides: seq<string>, maxLength: Option<nat>, propertyMatrix: seq<seq<real>>, canon: map<char, nat>)
      returns (r: Result<array3<real>, EncodeError>)
      requires !config.addNormalizedPosition && !config.addNormalizedCentrality
      requires |alphabet| == 20
      requires PropertyTables(alphabet, canon, propertyMatrix)
      ensures r.Success? <==> CheckedBatch(config, peptides, maxLength, FeatureKeys(alphabet)).Success?
      ensures r.Failure? ==> r.error == CheckedBatch(config, peptides, maxLength, FeatureKeys(alphabet)).error
      ensures r.Success? ==> fresh(r.value)
      ensures r.Success? ==>
        && CheckedBatch(config, peptides, maxLength, FeatureKeys(alphabet)).Success?
        && var (prepared, len) := CheckedBatch(config, peptides, maxLength, FeatureKeys(alphabet)).value;
        && r.value.Length0 == |peptides|
        && r.value.Length1 == len
        && r.value.Length2 == 20
        && forall i, j, k :: 0 <= i < |peptides| && 0 <= j < len && 0 <= k < 20 ==>
             r.value[i, j, k] == FeatureCell(alphabet, canon, propertyMatrix, prepared[i], j, k)
    {
      var validated := ValidateAndPreparePeptides(config, peptides, maxLength);
      if validated.Failure? {
        return Failure(validated.error);
      }
      var prepared, len := validated.value.0, validated.value.1;
      var x, unknownAt := FeatureArray(prepared, len, propertyMatrix, canon);
      if unknownAt.Some? {
        CheckedBatchRejects(config, peptides, maxLength, FeatureKeys(alphabet), unknownAt.value.0, unknownAt.value.1);
        return Failure(UnknownToken(prepared[unknownAt.value.0][unknownAt.value.1]));
      }
      return Success(AddExtraFeatures(x, prepared));
    }

    /** The loops of `_encode_from_pairwise_properties` over a prepared batch:
        the filled tensor, or the row-major position of the first character
        without a feature row. */
    method FeatureArray(prepared: seq<string>, len: nat, propertyMatrix: seq<seq<real>>, canon: map<char, nat>)
      returns (x: array3<real>, unknownAt: Option<(nat, nat)>)
      requires |alphabet| == 20
      requires PropertyTables(alphabet, canon, propertyMatrix)
      requires forall a :: 0 <= a < |prepared| ==> |prepared[a]| <= len
      ensures fresh(x)
      ensures x.Length0 == |prepared| && x.Length1 == len && x.Length2 == 20
      ensures unknownAt.None? ==>
        && AllKnown(prepared, FeatureKeys(alphabet))
        && forall i, j, k :: 0 <= i < |prepared| && 0 <= j < len && 0 <= k < 20 ==>
             x[i, j, k] == FeatureCell(alphabet, canon, propertyMatrix, prepared[i], j, k)
      ensures unknownAt.Some? ==>
        && unknownAt.value.0 < |prepared|
        && (forall a :: 0 <= a < unknownAt.value.0 ==> RowKnown(prepared[a], FeatureKeys(alphabet)))
        && FirstUnknownPos(prepared[unknownAt.value.0], FeatureKeys(alphabet), unknownAt.value.1)
    {
      var n := |prepared|;
      x := new real[n, len, 20]((_, _, _) => 0.0);
      var rows := FeatureRows(propertyMatrix, canon);
      ghost var keys := FeatureKeys(alphabet);
      for i := 0 to n
        invariant forall a :: 0 <= a < i ==> RowKnown(prepared[a], keys)
        invariant forall a, b, k :: 0 <= a < i && 0 <= b < len && 0 <= k < 20 ==>
          x[a, b, k] == FeatureCell(alphabet, canon, propertyMatrix, prepared[a], b, k)
        invariant forall a, b, k :: i <= a < n && 0 <= b < len && 0 <= k < 20 ==> x[a, b, k] == 0.0
      {
        var unknownInRow := FillFeatureRow(x, i, prepared[i], rows);
        if unknownInRow.Some? {
          return x, Some((i, unknownInRow.value));
        }
        forall b, k | 0 <= b < len && 0 <= k < 20
          ensures x[i, b, k] == FeatureCell(alphabet, canon, propertyMatrix, prepared[i], b, k)
        {
        }
      }
      return x, None;
    }

    /** The feature-row table of `_encode_from_pairwise_properties`: a
        re-indexed matrix row per alphabet letter, zeros for gap, start and stop. */
    method FeatureRows(propertyMatrix: seq<seq<real>>, canon: map<char, nat>) returns (rows: map<char, seq<real>>)
      requires PropertyTables(alphabet, canon, propertyMatrix)
      ensures rows.Keys == FeatureKeys(alphabet)
      ensures forall c :: c in rows ==> rows[c] == FeatureRow(alphabet, canon, propertyMatrix, c)
    {
      var alphabetIndices := seq(|alphabet|, k requires 0 <= k < |alphabet| => canon[alphabet[k].letter[0]]);
      rows := map[];
      for a := 0 to |alphabet|
        invariant rows.Keys == Letters(alphabet[..a])
        invariant forall c :: c in rows ==> c in canon && canon[c] < 20 && rows[c] == LetterRow(alphabet, canon, propertyMatrix, c)
      {
        var letter := alphabet[a].letter[0];
        var aaIdx := canon[letter];
        var row := seq(|alphabetIndices|, k requires 0 <= k < |alphabetIndices| => propertyMatrix[aaIdx][alphabetIndices[k]]);
        LettersSnoc(alphabet, a);
        rows := rows[letter := row];
      }
      assert alphabet[..|alphabet|] == alphabet;
      var zeros := Zeros(|alphabetIndices|);
      rows := rows[Gap := zeros][Start := zeros][Stop := zeros];
    }

    /** One row of `_encode_from_pairwise_properties`' loop: copy each
        position's feature row, stopping at the first character without one. */
    method FillFeatureRow(x: array3<real>, i: nat, p: string, rows: map<char, seq<real>>) returns (unknownAt: Option<nat>)
      requires i < x.Length0 && |p| <= x.Length1
      requires forall c :: c in rows ==> |rows[c]| == x.Length2
      requires forall b, k :: 0 <= b < x.Length1 && 0 <= k < x.Length2 ==> x[i, b, k] == 0.0
      modifies x
      ensures forall a, b, k :: 0 <= a < x.Length0 && a != i && 0 <= b < x.Length1 && 0 <= k < x.Length2 ==>
        x[a, b, k] == old(x[a, b, k])
      ensures unknownAt.None? ==>
        && RowKnown(p, rows.Keys)
        && forall b, k :: 0 <= b < x.Length1 && 0 <= k < x.Length2 ==>
             x[i, b, k] == (if b < |p| then rows[p[b]][k] else 0.0)
      ensures unknownAt.Some? ==> FirstUnknownPos(p, rows.Keys, unknownAt.value)
    {
      for j := 0 to |p|
        invariant forall b :: 0 <= b < j ==> p[b] in rows
        invariant forall a, b, k :: 0 <= a < x.Length0 && a != i && 0 <= b < x.Length1 && 0 <= k < x.Length2 ==>
          x[a, b, k] == old(x[a, b, k])
        invariant forall b, k :: 0 <= b < x.Length1 && 0 <= k < x.Length2 ==>
          x[i, b, k] == (if b < j then rows[p[b]][k] else 0.0)
      {
        if p[j] !in rows {
          return Some(j);
        }
        var row := rows[p[j]];
        forall k | 0 <= k < x.Length2 {
          x[i, j, k] := row[k];
        }
      }
      return None;
    }

    /** `encode_FOFE`: no length check and no padding; row `i` holds the
        forward accumulator of every token, then (bidirectional) the backward one. */
    method EncodeFofe(peptides: seq<string>, alpha: real := 0.7, bidirectional: bool := false) returns (r: Result<array2<real>, EncodeError>)
      requires IndexConsistent()
      ensures r.Success? <==> AllKnown(PrepareSequences(config, peptides, None), indexDict.Keys)
      ensures r.Success? ==> fresh(r.value)
      ensures r.Failure? ==>
        && FirstUnknown(PrepareSequences(config, peptides, None), indexDict.Keys).Some?
        && r.error == UnknownToken(FirstUnknown(PrepareSequences(config, peptides, None), indexDict.Keys).value)
      ensures r.Success? ==>
        && r.value.Length0 == |peptides|
        && r.value.Length1 == FofeWidth(|indexDict|, bidirectional)
        && var prepared := PrepareSequences(config, peptides, None);
           forall i, k :: 0 <= i < |peptides| && 0 <= k < r.value.Length1 ==>
             r.value[i, k] == FofePartial(indexDict, prepared[i], alpha, |indexDict|, k, |prepared[i]|)
    {
      var prepared := PrepareSequences(config, peptides, None);
      var n := |prepared|;
      var symbols := |indexDict|;
      var result: array2<real>;
      if bidirectional {
        result := new real[n, 2 * symbols]((_, _) => 0.0);
      } else {
        result := new real[n, symbols]((_, _) => 0.0);
      }
      var width := result.Length1;
      for i := 0 to n
        invariant forall a :: 0 <= a < i ==> RowKnown(prepared[a], indexDict.Keys)
        invariant forall a, k :: 0 <= a < i && 0 <= k < width ==>
          result[a, k] == FofePartial(indexDict, prepared[a], alpha, symbols, k, |prepared[a]|)
        invariant forall a, k :: i <= a < n && 0 <= k < width ==> result[a, k] == 0.0
      {
        var unknownAt := FillFofeRow(result, i, prepared[i], alpha, bidirectional);
        if unknownAt.Some? {
          FirstUnknownAt(prepared, indexDict.Keys, i, unknownAt.value);
          return Failure(UnknownToken(prepared[i][unknownAt.value]));
        }
      }
      return Success(result);
    }

    /** One row of `encode_FOFE`'s loop: accumulate the forward (and backward)
        weight of each position, stopping at the first unknown character. */
    method FillFofeRow(result: array2<real>, i: nat, p: string, alpha: real, bidirectional: bool)
      returns (unknownAt: Option<nat>)
      requires IndexConsistent()
      requires i < result.Length0 && result.Length1 == FofeWidth(|indexDict|, bidirectional)
      requires forall k :: 0 <= k < result.Length1 ==> result[i, k] == 0.0
      modifies result
      ensures forall a, k :: 0 <= a < result.Length0 && a != i && 0 <= k < result.Length1 ==> result[a, k] == old(result[a, k])
      ensures unknownAt.None? ==>
        && KnownChars(p, indexDict)
        && forall k :: 0 <= k < result.Length1 ==> result[i, k] == FofePartial(indexDict, p, alpha, |indexDict|, k, |p|)
      ensures unknownAt.Some? ==> FirstUnknownPos(p, indexDict.Keys, unknownAt.value)
    {
      var symbols := |indexDict|;
      var l := |p|;
      for j := 0 to l
        invariant forall b :: 0 <= b < j ==> p[b] in indexDict
        invariant forall a, k :: 0 <= a < result.Length0 && a != i && 0 <= k < result.Length1 ==> result[a, k] == old(result[a, k])
        invariant forall k :: 0 <= k < result.Length1 ==> result[i, k] == FofePartial(indexDict, p, alpha, symbols, k, j)
      {
        if p[j] !in indexDict {
          return Some(j);
        }
        var aaIdx := indexDict[p[j]];
        result[i, aaIdx] := result[i, aaIdx] + Pow(alpha, l - j - 1);
        if bidirectional {
          result[i, symbols + aaIdx] := result[i, symbols + aaIdx] + Pow(alpha, j);
        }
      }
      return None;
    }
  }
}
