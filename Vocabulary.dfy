/** The encoder's configuration and its ordered token table: which tokens are
    added, in which order, and the index each one receives. */
module Vocabulary {
  import opened Wrappers

  /** The flags fixed when an encoder is built. */
  datatype Config = Config(
    variableLengthSequences: bool,
    addStartTokens: bool,
    addStopTokens: bool,
    addNormalizedPosition: bool,
    addNormalizedCentrality: bool)

  /** One entry of the supplied amino-acid alphabet. */
  datatype AminoAcid = AminoAcid(letter: string, fullName: string)

  /** A token together with its human-readable name, as handed to the table. */
  datatype TokenEntry = TokenEntry(token: string, name: string)

  datatype VocabError =
    | InvalidToken(token: string)    // the token is not exactly one character
    | DuplicateToken(token: string)  // the token is already in the table

  const Gap: char := '-'
  const Start: char := '^'
  const Stop: char := '$'

  function B2N(b: bool): nat { if b then 1 else 0 }

  /** How many structural tokens (gap, start, stop) the configuration enables. */
  function NumStructural(cfg: Config): nat {
    B2N(cfg.variableLengthSequences) + B2N(cfg.addStartTokens) + B2N(cfg.addStopTokens)
  }

  /** Structural tokens in the order the constructor adds them. */
  function StructuralEntries(cfg: Config): (es: seq<TokenEntry>)
    ensures |es| == NumStructural(cfg)
  {
    (if cfg.variableLengthSequences then [TokenEntry([Gap], "Gap")] else [])
    + (if cfg.addStartTokens then [TokenEntry([Start], "Start")] else [])
    + (if cfg.addStopTokens then [TokenEntry([Stop], "Stop")] else [])
  }

  function AlphabetEntries(alphabet: seq<AminoAcid>): (es: seq<TokenEntry>)
    ensures |es| == |alphabet|
  {
    seq(|alphabet|, k requires 0 <= k < |alphabet| => TokenEntry(alphabet[k].letter, alphabet[k].fullName))
  }

  /** Every token the constructor adds, in insertion order. */
  function ConfiguredEntries(cfg: Config, alphabet: seq<AminoAcid>): seq<TokenEntry> {
    StructuralEntries(cfg) + AlphabetEntries(alphabet)
  }

  ghost predicate SingleChars(entries: seq<TokenEntry>) {
    forall k :: 0 <= k < |entries| ==> |entries[k].token| == 1
  }

  function Chars(entries: seq<TokenEntry>): (cs: seq<char>)
    requires SingleChars(entries)
    ensures |cs| == |entries|
  {
    seq(|entries|, k requires 0 <= k < |entries| => entries[k].token[0])
  }

  function Names(entries: seq<TokenEntry>): (ns: seq<string>)
    ensures |ns| == |entries|
  {
    seq(|entries|, k requires 0 <= k < |entries| => entries[k].name)
  }

  ghost predicate Distinct(s: seq<char>) {
    forall a, b :: 0 <= a < b < |s| ==> s[a] != s[b]
  }

  /** One insertion into the table of tokens and names: fails on a token that is
      not a single character or is already present, else appends. */
  function AddEntry(tokens: seq<char>, names: seq<string>, e: TokenEntry): Result<(seq<char>, seq<string>), VocabError> {
    if |e.token| != 1 then Failure(InvalidToken(e.token))
    else if e.token[0] in tokens then Failure(DuplicateToken(e.token))
    else Success((tokens + [e.token[0]], names + [e.name]))
  }

  /** Insert the entries one after another, stopping at the first failure. */
  function AddEntries(tokens: seq<char>, names: seq<string>, entries: seq<TokenEntry>): Result<(seq<char>, seq<string>), VocabError>
    decreases |entries|
  {
    if entries == [] then Success((tokens, names))
    else match AddEntry(tokens, names, entries[0])
      case Failure(err) => Failure(err)
      case Success(next) => AddEntries(next.0, next.1, entries[1..])
  }

  /** `index` gives every token its position in `tokens`, and nothing else. */
  ghost predicate IndexTable(tokens: seq<char>, index: map<char, nat>) {
    && |index| == |tokens|
    && (forall i :: 0 <= i < |tokens| ==> tokens[i] in index && index[tokens[i]] == i)
    && (forall c :: c in index ==> index[c] < |tokens| && tokens[index[c]] == c)
  }

  /** Inserting a batch of entries succeeds exactly when every token is one
      character and no token repeats (among themselves or what is already
      there); the result appends the tokens and names in order. */
  lemma {:induction false} AddEntriesSpec(tokens: seq<char>, names: seq<string>, entries: seq<TokenEntry>)
    requires Distinct(tokens)
    ensures AddEntries(tokens, names, entries).Success?
        <==> SingleChars(entries) && Distinct(tokens + Chars(entries))
    ensures AddEntries(tokens, names, entries).Success? ==>
        AddEntries(tokens, names, entries).value == (tokens + Chars(entries), names + Names(entries))
    decreases |entries|
  {
    if entries == [] {
      assert tokens + Chars(entries) == tokens;
      assert names + Names(entries) == names;
    } else {
      var e := entries[0];
      var rest := entries[1..];
      if |e.token| != 1 {
        assert !SingleChars(entries);
      } else if e.token[0] in tokens {
        var a :| 0 <= a < |tokens| && tokens[a] == e.token[0];
        if SingleChars(entries) {
          assert (tokens + Chars(entries))[|tokens|] == e.token[0];
          assert (tokens + Chars(entries))[a] == tokens[a];
        }
      } else {
        var t' := tokens + [e.token[0]];
        assert Distinct(t');
        AddEntriesSpec(t', names + [e.name], rest);
        assert SingleChars(entries) <==> SingleChars(rest) by {
          if SingleChars(rest) {
            forall k | 0 <= k < |entries| ensures |entries[k].token| == 1 {
              if k > 0 { assert entries[k] == rest[k - 1]; }
            }
          }
          if SingleChars(entries) {
            forall k | 0 <= k < |rest| ensures |rest[k].token| == 1 {
              assert rest[k] == entries[k + 1];
            }
          }
        }
        if SingleChars(entries) {
          assert Chars(entries) == [e.token[0]] + Chars(rest);
          assert tokens + Chars(entries) == t' + Chars(rest);
          assert Names(entries) == [e.name] + Names(rest);
          assert names + Names(entries) == names + [e.name] + Names(rest);
        }
      }
    }
  }

  /** A table built from nothing holds exactly the entries' tokens and names,
      each token once. */
  lemma AddEntriesFromEmpty(entries: seq<TokenEntry>, tokens: seq<char>, names: seq<string>)
    requires AddEntries([], [], entries) == Success((tokens, names))
    ensures SingleChars(entries) && Distinct(tokens)
    ensures tokens == Chars(entries) && names == Names(entries)
  {
    AddEntriesSpec([], [], entries);
    assert [] + Chars(entries) == Chars(entries);
    assert [] + Names(entries) == Names(entries);
  }

  /** Inserting `a + b` is inserting `a`, then `b` into the result. */
  lemma {:induction false} AddEntriesAppend(tokens: seq<char>, names: seq<string>, a: seq<TokenEntry>, b: seq<TokenEntry>)
    ensures AddEntries(tokens, names, a + b) ==
      match AddEntries(tokens, names, a)
      case Failure(err) => Failure(err)
      case Success(next) => AddEntries(next.0, next.1, b)
    decreases |a|
  {
    if a == [] {
      assert a + b == b;
    } else {
      assert (a + b)[0] == a[0];
      assert (a + b)[1..] == a[1..] + b;
      match AddEntry(tokens, names, a[0])
      case Failure(_) =>
      case Success(next) => AddEntriesAppend(next.0, next.1, a[1..], b);
    }
  }

  /** The indices of a consistent table are exactly 0 .. |tokens| - 1. */
  lemma IndicesContiguous(tokens: seq<char>, index: map<char, nat>)
    requires IndexTable(tokens, index)
    ensures forall i :: 0 <= i < |tokens| ==> i in index.Values
    ensures forall v :: v in index.Values ==> v < |tokens|
  {
    forall i | 0 <= i < |tokens| ensures i in index.Values {
      assert tokens[i] in index && index[tokens[i]] == i;
    }
  }

  /** A consistent table never holds a token twice. */
  lemma IndexTableDistinct(tokens: seq<char>, index: map<char, nat>)
    requires IndexTable(tokens, index)
    ensures Distinct(tokens)
  {
  }

  /** Appending a fresh token at index `|index|` keeps the table consistent. */
  lemma {:induction false} IndexTableAppend(tokens: seq<char>, index: map<char, nat>, c: char)
    requires IndexTable(tokens, index)
    requires c !in index
    ensures IndexTable(tokens + [c], index[c := |index|])
  {
    var t' := tokens + [c];
    var m := index[c := |index|];
    assert |m| == |index| + 1;
    forall i | 0 <= i < |t'| ensures t'[i] in m && m[t'[i]] == i {
      if i < |tokens| {
        assert t'[i] == tokens[i] && tokens[i] != c;
      }
    }
  }

  /** A table that starts with the given entries holds entry `k`'s token at position `k`. */
  lemma PrefixTokens(tokens: seq<char>, entries: seq<TokenEntry>)
    requires SingleChars(entries)
    requires |entries| <= |tokens| && tokens[..|entries|] == Chars(entries)
    ensures forall k :: 0 <= k < |entries| ==> tokens[k] == entries[k].token[0]
  {
    forall k | 0 <= k < |entries| ensures tokens[k] == entries[k].token[0] {
      assert tokens[..|entries|][k] == tokens[k];
    }
  }

  /** The order the constructor lays the table out in: gap, start, stop, then
      the alphabet, each token at its insertion position. */
  lemma ConfiguredOrder(cfg: Config, alphabet: seq<AminoAcid>, tokens: seq<char>, index: map<char, nat>)
    requires SingleChars(ConfiguredEntries(cfg, alphabet))
    requires IndexTable(tokens, index)
    requires |ConfiguredEntries(cfg, alphabet)| <= |tokens|
    requires tokens[..|ConfiguredEntries(cfg, alphabet)|] == Chars(ConfiguredEntries(cfg, alphabet))
    ensures |tokens| >= NumStructural(cfg) + |alphabet|
    ensures cfg.variableLengthSequences ==> Gap in index && index[Gap] == 0
    ensures cfg.addStartTokens ==> Start in index && index[Start] == B2N(cfg.variableLengthSequences)
    ensures cfg.addStopTokens ==>
      Stop in index && index[Stop] == B2N(cfg.variableLengthSequences) + B2N(cfg.addStartTokens)
    ensures forall k :: 0 <= k < |alphabet| ==>
      |alphabet[k].letter| == 1 && alphabet[k].letter[0] in index && index[alphabet[k].letter[0]] == NumStructural(cfg) + k
  {
    var es := ConfiguredEntries(cfg, alphabet);
    var structural := StructuralEntries(cfg);
    var s := NumStructural(cfg);
    var v := B2N(cfg.variableLengthSequences);
    PrefixTokens(tokens, es);
    assert forall k :: 0 <= k < s ==> es[k] == structural[k];
    if cfg.variableLengthSequences {
      assert structural[0].token == [Gap];
      assert tokens[0] == Gap;
    }
    if cfg.addStartTokens {
      assert structural[v].token == [Start];
      assert tokens[v] == Start;
    }
    if cfg.addStopTokens {
      assert structural[v + B2N(cfg.addStartTokens)].token == [Stop];
      assert tokens[v + B2N(cfg.addStartTokens)] == Stop;
    }
    forall k | 0 <= k < |alphabet|
      ensures |alphabet[k].letter| == 1 && alphabet[k].letter[0] in index && index[alphabet[k].letter[0]] == s + k
    {
      assert es[s + k] == AlphabetEntries(alphabet)[k];
      assert tokens[s + k] == alphabet[k].letter[0];
    }
  }
}
