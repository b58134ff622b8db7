/** What each encoding puts in each cell, as functions of the prepared
    peptides and the token table; the array-filling methods of the encoder
    are proved against these. `encode_index_lists`, which builds lists
    rather than arrays, is modelled here directly. */
module Encodings {
  import opened Wrappers
  import opened Vocabulary
  import opened Preparation

  // ---------------------------------------------------------------------------
  // Unknown characters: a lookup of a character the table lacks raises KeyError,
  // at the first such character in row-major order.
  // ---------------------------------------------------------------------------

  /** Every character of `p` is in `known`. */
  ghost predicate RowKnown(p: string, known: set<char>) {
    forall j :: 0 <= j < |p| ==> p[j] in known
  }

  ghost predicate AllKnown(ps: seq<string>, known: set<char>) {
    forall i :: 0 <= i < |ps| ==> RowKnown(ps[i], known)
  }

  function FirstUnknownIn(p: string, known: set<char>): (r: Option<char>)
    ensures r.None? <==> RowKnown(p, known)
    ensures r.Some? ==> r.value !in known && r.value in p
    decreases |p|
  {
    if p == [] then None
    else if p[0] !in known then Some(p[0])
    else
      var rest := FirstUnknownIn(p[1..], known);
      assert forall j :: 1 <= j < |p| ==> p[j] == p[1..][j - 1];
      rest
  }

  /** The first character, row by row, that has no entry in `known`. */
  function FirstUnknown(ps: seq<string>, known: set<char>): (r: Option<char>)
    ensures r.None? <==> AllKnown(ps, known)
    ensures r.Some? ==> r.value !in known && exists i :: 0 <= i < |ps| && r.value in ps[i]
    decreases |ps|
  {
    if ps == [] then None
    else match FirstUnknownIn(ps[0], known)
      case Some(c) => Some(c)
      case None =>
        var rest := FirstUnknown(ps[1..], known);
        assert forall i :: 1 <= i < |ps| ==> ps[i] == ps[1..][i - 1];
        rest
  }

  lemma {:induction false} FirstUnknownInAt(p: string, known: set<char>, j: nat)
    requires j < |p| && p[j] !in known
    requires forall j' :: 0 <= j' < j ==> p[j'] in known
    ensures FirstUnknownIn(p, known) == Some(p[j])
    decreases j
  {
    if j > 0 {
      assert p[0] in known;
      assert p[1..][j - 1] == p[j];
      FirstUnknownInAt(p[1..], known, j - 1);
    }
  }

  /** A loop that walks the batch row by row and stops at the first character
      it cannot look up stops at the character `FirstUnknown` names. */
  lemma {:induction false} FirstUnknownAt(ps: seq<string>, known: set<char>, i: nat, j: nat)
    requires i < |ps| && j < |ps[i]|
    requires forall i' :: 0 <= i' < i ==> RowKnown(ps[i'], known)
    requires forall j' :: 0 <= j' < j ==> ps[i][j'] in known
    requires ps[i][j] !in known
    ensures FirstUnknown(ps, known) == Some(ps[i][j])
    decreases i
  {
    if i == 0 {
      FirstUnknownInAt(ps[0], known, j);
    } else {
      assert RowKnown(ps[0], known);
      forall i' | 0 <= i' < i - 1 ensures RowKnown(ps[1..][i'], known) {
        assert ps[1..][i'] == ps[i' + 1];
      }
      FirstUnknownAt(ps[1..], known, i - 1, j);
    }
  }

  // ---------------------------------------------------------------------------
  // Index encoding
  // ---------------------------------------------------------------------------

  ghost predicate KnownChars(p: string, index: map<char, nat>) {
    RowKnown(p, index.Keys)
  }

  /** The table index of every character of `p`. */
  function IndexList(index: map<char, nat>, p: string): (r: seq<nat>)
    requires KnownChars(p, index)
    ensures |r| == |p|
  {
    seq(|p|, j requires 0 <= j < |p| => index[p[j]])
  }

  /** Map indices back to their tokens. */
  function Decode(tokens: seq<char>, row: seq<nat>): (s: string)
    requires forall j :: 0 <= j < |row| ==> row[j] < |tokens|
    ensures |s| == |row|
  {
    seq(|row|, j requires 0 <= j < |row| => tokens[row[j]])
  }

  /** `encode_index_lists`: affix without padding or length checks, then look every character up. */
  function EncodeIndexLists(cfg: Config, index: map<char, nat>, peptides: seq<string>)
    : (r: Result<seq<seq<nat>>, EncodeError>)
    ensures r.Success? <==> AllKnown(PrepareSequences(cfg, peptides, None), index.Keys)
    ensures r.Failure? ==>
      r.error.UnknownToken? && r.error.token !in index &&
      exists i :: 0 <= i < |peptides| && r.error.token in Affix(cfg, peptides[i])
    ensures r.Success? ==> (|r.value| == |peptides| &&
      forall i :: 0 <= i < |peptides| ==> |r.value[i]| == |peptides[i]| + B2N(cfg.addStartTokens) + B2N(cfg.addStopTokens))
  {
    var prepared := PrepareSequences(cfg, peptides, None);
    match FirstUnknown(prepared, index.Keys)
    case Some(c) => Failure(UnknownToken(c))
    case None => Success(seq(|prepared|, i requires 0 <= i < |prepared| => IndexList(index, prepared[i])))
  }

  /** Decoding the index lists through the token table gives back the affixed peptides. */
  lemma IndexListsRoundTrip(cfg: Config, tokens: seq<char>, index: map<char, nat>, peptides: seq<string>)
    requires IndexTable(tokens, index)
    requires EncodeIndexLists(cfg, index, peptides).Success?
    ensures var lists := EncodeIndexLists(cfg, index, peptides).value;
      forall i :: 0 <= i < |lists| ==>
        (forall j :: 0 <= j < |lists[i]| ==> lists[i][j] < |tokens|) &&
        Decode(tokens, lists[i]) == Affix(cfg, peptides[i])
  {
    var lists := EncodeIndexLists(cfg, index, peptides).value;
    var prepared := PrepareSequences(cfg, peptides, None);
    forall i | 0 <= i < |lists|
      ensures (forall j :: 0 <= j < |lists[i]| ==> lists[i][j] < |tokens|)
      ensures Decode(tokens, lists[i]) == Affix(cfg, peptides[i])
    {
      assert prepared[i] == Affix(cfg, peptides[i]);
      assert lists[i] == IndexList(index, prepared[i]);
    }
  }

  /** A batch that passed the length check and whose every character is in `known`. */
  function CheckedBatch(cfg: Config, peptides: seq<string>, maxLength: Option<nat>, known: set<char>)
    : (r: Result<(seq<string>, nat), EncodeError>)
    ensures r.Success? <==>
      ValidateAndPreparePeptides(cfg, peptides, maxLength).Success? &&
      AllKnown(ValidateAndPreparePeptides(cfg, peptides, maxLength).value.0, known)
    ensures r.Success? ==> r == ValidateAndPreparePeptides(cfg, peptides, maxLength)
    ensures r.Failure? && ValidateAndPreparePeptides(cfg, peptides, maxLength).Failure? ==>
      r.error == ValidateAndPreparePeptides(cfg, peptides, maxLength).error
    ensures r.Failure? && ValidateAndPreparePeptides(cfg, peptides, maxLength).Success? ==>
      r.error.UnknownToken? && r.error.token !in known
  {
    match ValidateAndPreparePeptides(cfg, peptides, maxLength)
    case Failure(e) => Failure(e)
    case Success(batch) =>
      match FirstUnknown(batch.0, known)
      case Some(c) => Failure(UnknownToken(c))
      case None => Success(batch)
  }

  /** Position `j` holds the first character of `p` that is not in `known`. */
  ghost predicate FirstUnknownPos(p: string, known: set<char>, j: nat) {
    j < |p| && p[j] !in known && forall b :: 0 <= b < j ==> p[b] in known
  }

  /** A validated batch whose rows before `i` are known and whose row `i` has
      its first unknown character at `j` is refused with exactly that character. */
  lemma CheckedBatchRejects(cfg: Config, peptides: seq<string>, maxLength: Option<nat>, known: set<char>, i: nat, j: nat)
    requires ValidateAndPreparePeptides(cfg, peptides, maxLength).Success?
    requires var ps := ValidateAndPreparePeptides(cfg, peptides, maxLength).value.0;
      && i < |ps|
      && (forall a :: 0 <= a < i ==> RowKnown(ps[a], known))
      && FirstUnknownPos(ps[i], known, j)
    ensures var ps := ValidateAndPreparePeptides(cfg, peptides, maxLength).value.0;
      CheckedBatch(cfg, peptides, maxLength, known) == Failure(UnknownToken(ps[i][j]))
  {
    var ps := ValidateAndPreparePeptides(cfg, peptides, maxLength).value.0;
    FirstUnknownAt(ps, known, i, j);
  }

  /** Cell `j` of an index-array row: the token's index, or the zero fill past the end. */
  function IndexCell(index: map<char, nat>, p: string, j: nat): nat
    requires j < |p| ==> p[j] in index
  {
    if j < |p| then index[p[j]] else 0
  }

  /** With the gap token at index 0, decoding an index-array row gives the
      peptide right-padded with gap tokens to the row's length. */
  lemma IndexRowRoundTrip(tokens: seq<char>, index: map<char, nat>, p: string, len: nat)
    requires IndexTable(tokens, index)
    requires tokens != [] && tokens[0] == Gap
    requires KnownChars(p, index)
    requires |p| <= len
    ensures var row := seq(len, j requires 0 <= j < len => IndexCell(index, p, j));
      (forall j :: 0 <= j < len ==> row[j] < |tokens|) && Decode(tokens, row) == PadRight(p, len)
  {
    var row := seq(len, j requires 0 <= j < len => IndexCell(index, p, j));
    var padded := PadRight(p, len);
    assert PaddedFrom(padded, p) && |padded| == len;
    forall j | 0 <= j < len ensures row[j] < |tokens| && tokens[row[j]] == padded[j] {
      if j < |p| {
        assert padded[..|p|][j] == p[j];
      }
    }
  }

  /** The rows of the index array are the index lists of the same batch,
      zero-filled to the common length. */
  lemma IndexArrayExtendsLists(cfg: Config, index: map<char, nat>, peptides: seq<string>, maxLength: Option<nat>)
    requires CheckedBatch(cfg, peptides, maxLength, index.Keys).Success?
    ensures EncodeIndexLists(cfg, index, peptides).Success?
    ensures var (prepared, len) := CheckedBatch(cfg, peptides, maxLength, index.Keys).value;
      var lists := EncodeIndexLists(cfg, index, peptides).value;
      forall i, j :: 0 <= i < |peptides| && 0 <= j < len ==>
        && (j < |prepared[i]| ==> prepared[i][j] in index)
        && |lists[i]| == |prepared[i]| <= len
        && IndexCell(index, prepared[i], j) == (if j < |lists[i]| then lists[i][j] else 0)
  {
    var (prepared, len) := CheckedBatch(cfg, peptides, maxLength, index.Keys).value;
    var lists := EncodeIndexLists(cfg, index, peptides).value;
    assert forall i :: 0 <= i < |peptides| ==> lists[i] == IndexList(index, prepared[i]);
  }

  /** With the gap token at index 0 and no gap inside the peptide, an index
      cell is zero exactly when it lies past the peptide's end. */
  lemma IndexZeroExactlyPastEnd(tokens: seq<char>, index: map<char, nat>, p: string, j: nat)
    requires IndexTable(tokens, index)
    requires tokens != [] && tokens[0] == Gap
    requires KnownChars(p, index)
    requires Gap !in p
    ensures IndexCell(index, p, j) == 0 <==> j >= |p|
  {
  }

  // ---------------------------------------------------------------------------
  // One-hot encoding
  // ---------------------------------------------------------------------------

  /** Channel `k` at position `j`: set exactly for the token's own index, never past the end. */
  function OneHotCell(index: map<char, nat>, p: string, j: nat, k: nat): bool
    requires j < |p| ==> p[j] in index
  {
    j < |p| && index[p[j]] == k
  }

  /** The sum of channels 0 .. n-1 at position `j`. */
  function HotChannels(index: map<char, nat>, p: string, j: nat, n: nat): nat
    requires j < |p| ==> p[j] in index
  {
    if n == 0 then 0 else HotChannels(index, p, j, n - 1) + (if OneHotCell(index, p, j, n - 1) then 1 else 0)
  }

  /** Summed over all channels, a position inside the peptide holds exactly
      one, and a position past its end holds none. */
  lemma {:induction false} OneHotSum(tokens: seq<char>, index: map<char, nat>, p: string, j: nat, n: nat)
    requires IndexTable(tokens, index)
    requires j < |p| ==> p[j] in index
    requires n <= |tokens|
    ensures HotChannels(index, p, j, n) == (if j < |p| && index[p[j]] < n then 1 else 0)
  {
    if n > 0 {
      OneHotSum(tokens, index, p, j, n - 1);
    }
  }

  // ---------------------------------------------------------------------------
  // Pairwise-property encoding
  // ---------------------------------------------------------------------------

  const Structural: set<char> := {Gap, Start, Stop}

  /** A 20 x 20 property matrix and a canonical letter index covering the alphabet. */
  ghost predicate PropertyTables(alphabet: seq<AminoAcid>, canon: map<char, nat>, matrix: seq<seq<real>>) {
    && |matrix| == 20
    && (forall r :: 0 <= r < 20 ==> |matrix[r]| == 20)
    && (forall k :: 0 <= k < |alphabet| ==>
          |alphabet[k].letter| == 1 && alphabet[k].letter[0] in canon && canon[alphabet[k].letter[0]] < 20)
  }

  function Letters(alphabet: seq<AminoAcid>): set<char>
    requires forall k :: 0 <= k < |alphabet| ==> |alphabet[k].letter| == 1
  {
    set k | 0 <= k < |alphabet| :: alphabet[k].letter[0]
  }

  /** The letters of a longer prefix are those of the shorter one plus the next letter. */
  lemma LettersSnoc(alphabet: seq<AminoAcid>, a: nat)
    requires a < |alphabet|
    requires forall k :: 0 <= k < |alphabet| ==> |alphabet[k].letter| == 1
    ensures Letters(alphabet[..a + 1]) == Letters(alphabet[..a]) + {alphabet[a].letter[0]}
  {
    var longer := alphabet[..a + 1];
    var shorter := alphabet[..a];
    forall c | c in Letters(longer) ensures c in Letters(shorter) + {alphabet[a].letter[0]} {
      var k :| 0 <= k < |longer| && longer[k].letter[0] == c;
      if k < a {
        assert shorter[k] == longer[k];
      }
    }
    forall c | c in Letters(shorter) ensures c in Letters(longer) {
      var k :| 0 <= k < |shorter| && shorter[k].letter[0] == c;
      assert longer[k] == shorter[k];
    }
    assert longer[a] == alphabet[a];
  }

  function Zeros(n: nat): (z: seq<real>)
    ensures |z| == n
  {
    seq(n, _ => 0.0)
  }

  /** A letter's matrix row, re-indexed to the configured alphabet's column order. */
  function LetterRow(alphabet: seq<AminoAcid>, canon: map<char, nat>, matrix: seq<seq<real>>, c: char): (row: seq<real>)
    requires PropertyTables(alphabet, canon, matrix)
    requires c in canon && canon[c] < 20
    ensures |row| == |alphabet|
  {
    seq(|alphabet|, k requires 0 <= k < |alphabet| => matrix[canon[c]][canon[alphabet[k].letter[0]]])
  }

  /** The characters the feature table has a row for. */
  function FeatureKeys(alphabet: seq<AminoAcid>): set<char>
    requires forall k :: 0 <= k < |alphabet| ==> |alphabet[k].letter| == 1
  {
    Letters(alphabet) + Structural
  }

  /** The feature vector of a character: zero for gap, start and stop; the
      re-indexed matrix row for an alphabet letter. */
  function FeatureRow(alphabet: seq<AminoAcid>, canon: map<char, nat>, matrix: seq<seq<real>>, c: char): (row: seq<real>)
    requires PropertyTables(alphabet, canon, matrix)
    requires c in FeatureKeys(alphabet)
    ensures |row| == |alphabet|
    ensures c in Structural ==> forall k :: 0 <= k < |row| ==> row[k] == 0.0
    ensures c !in Structural ==> forall a, k :: 0 <= a < |alphabet| && 0 <= k < |alphabet| && alphabet[a].letter[0] == c ==>
      row[k] == matrix[canon[alphabet[a].letter[0]]][canon[alphabet[k].letter[0]]]
  {
    if c in Structural then Zeros(|alphabet|)
    else LetterRow(alphabet, canon, matrix, c)
  }

  /** Cell `(j, k)` of a pairwise-property row: the feature vector entry, or zero past the end. */
  function FeatureCell(alphabet: seq<AminoAcid>, canon: map<char, nat>, matrix: seq<seq<real>>, p: string, j: nat, k: nat): real
    requires PropertyTables(alphabet, canon, matrix)
    requires j < |p| ==> p[j] in FeatureKeys(alphabet)
    requires k < |alphabet|
  {
    if j < |p| then FeatureRow(alphabet, canon, matrix, p[j])[k] else 0.0
  }

  // ---------------------------------------------------------------------------
  // FOFE (fixed-size ordinally-forgetting encoding)
  // ---------------------------------------------------------------------------

  function Pow(x: real, n: nat): real {
    if n == 0 then 1.0 else x * Pow(x, n - 1)
  }

  /** Whether character `c` is the token with index `k`. */
  predicate Hit(index: map<char, nat>, c: char, k: nat) {
    c in index && index[c] == k
  }

  /** Forward accumulator over the first `n` positions: each occurrence of
      token `k` at position `j` adds `alpha` to the power `|p| - 1 - j`. */
  function ForwardSum(index: map<char, nat>, p: string, k: nat, alpha: real, n: nat): real
    requires n <= |p|
  {
    if n == 0 then 0.0
    else ForwardSum(index, p, k, alpha, n - 1) + (if Hit(index, p[n - 1], k) then Pow(alpha, |p| - n) else 0.0)
  }

  /** Backward accumulator over the first `n` positions: each occurrence at
      position `j` adds `alpha` to the power `j`. */
  function BackwardSum(index: map<char, nat>, p: string, k: nat, alpha: real, n: nat): real
    requires n <= |p|
  {
    if n == 0 then 0.0
    else BackwardSum(index, p, k, alpha, n - 1) + (if Hit(index, p[n - 1], k) then Pow(alpha, n - 1) else 0.0)
  }

  /** The FOFE recurrence of Zhang et al.: z(0) = 0 and z(t) = alpha * z(t-1) + e(t),
      where e(t) is the one-hot vector of the t-th token. */
  function FofeRecurrence(index: map<char, nat>, p: string, k: nat, alpha: real): real
    decreases |p|
  {
    if p == [] then 0.0
    else alpha * FofeRecurrence(index, p[..|p| - 1], k, alpha) + (if Hit(index, p[|p| - 1], k) then 1.0 else 0.0)
  }

  function Reverse(s: string): (r: string)
    ensures |r| == |s|
  {
    if s == [] then [] else Reverse(s[1..]) + [s[0]]
  }

  /** Appending a token multiplies every earlier contribution by `alpha`. */
  lemma {:induction false} ForwardSnoc(index: map<char, nat>, p: string, c: char, k: nat, alpha: real, n: nat)
    requires n <= |p|
    ensures ForwardSum(index, p + [c], k, alpha, n) == alpha * ForwardSum(index, p, k, alpha, n)
    decreases n
  {
    if n > 0 {
      ForwardSnoc(index, p, c, k, alpha, n - 1);
      assert (p + [c])[n - 1] == p[n - 1];
      assert Pow(alpha, |p + [c]| - n) == alpha * Pow(alpha, |p| - n);
    }
  }

  /** The closed form the encoder computes agrees with the FOFE recurrence. */
  lemma {:induction false} ForwardMatchesRecurrence(index: map<char, nat>, p: string, k: nat, alpha: real)
    ensures ForwardSum(index, p, k, alpha, |p|) == FofeRecurrence(index, p, k, alpha)
    decreases |p|
  {
    if p != [] {
      var q := p[..|p| - 1];
      var c := p[|p| - 1];
      assert p == q + [c];
      ForwardMatchesRecurrence(index, q, k, alpha);
      ForwardSnoc(index, q, c, k, alpha, |q|);
    }
  }

  /** Prepending a token multiplies every later backward contribution by `alpha`. */
  lemma {:induction false} BackwardCons(index: map<char, nat>, c: char, q: string, k: nat, alpha: real, n: nat)
    requires n <= |q|
    ensures BackwardSum(index, [c] + q, k, alpha, n + 1)
         == (if Hit(index, c, k) then 1.0 else 0.0) + alpha * BackwardSum(index, q, k, alpha, n)
    decreases n
  {
    if n > 0 {
      BackwardCons(index, c, q, k, alpha, n - 1);
      assert ([c] + q)[n] == q[n - 1];
    } else {
      assert ([c] + q)[0] == c;
    }
  }

  /** The backward block of a peptide is the forward block of its reversal. */
  lemma {:induction false} BackwardIsReversedForward(index: map<char, nat>, p: string, k: nat, alpha: real)
    ensures BackwardSum(index, p, k, alpha, |p|) == ForwardSum(index, Reverse(p), k, alpha, |p|)
    decreases |p|
  {
    if p != [] {
      var c := p[0];
      var q := p[1..];
      assert p == [c] + q;
      var rq := Reverse(q) + [c];
      var hit := if Hit(index, c, k) then 1.0 else 0.0;
      assert Reverse(p) == rq;
      assert rq[|q|] == c;
      calc {
        BackwardSum(index, p, k, alpha, |p|);
        { BackwardCons(index, c, q, k, alpha, |q|); }
        hit + alpha * BackwardSum(index, q, k, alpha, |q|);
        { BackwardIsReversedForward(index, q, k, alpha); }
        hit + alpha * ForwardSum(index, Reverse(q), k, alpha, |q|);
        { ForwardSnoc(index, Reverse(q), c, k, alpha, |q|); }
        hit + ForwardSum(index, rq, k, alpha, |q|);
        { assert Pow(alpha, |rq| - (|q| + 1)) == 1.0; }
        ForwardSum(index, rq, k, alpha, |q| + 1);
      }
    }
  }

  /** A token that does not occur contributes nothing in either direction. */
  lemma {:induction false} AbsentTokenIsZero(index: map<char, nat>, p: string, k: nat, alpha: real, n: nat)
    requires n <= |p|
    requires forall j :: 0 <= j < |p| ==> !Hit(index, p[j], k)
    ensures ForwardSum(index, p, k, alpha, n) == 0.0
    ensures BackwardSum(index, p, k, alpha, n) == 0.0
    decreases n
  {
    if n > 0 {
      AbsentTokenIsZero(index, p, k, alpha, n - 1);
    }
  }

  /** Entry `k` of a FOFE row of width `2 * v` (bidirectional) or `v`: forward block, then backward block. */
  function FofePartial(index: map<char, nat>, p: string, alpha: real, v: nat, k: nat, n: nat): real
    requires n <= |p|
  {
    if k < v then ForwardSum(index, p, k, alpha, n) else BackwardSum(index, p, k - v, alpha, n)
  }

  function FofeWidth(v: nat, bidirectional: bool): nat {
    if bidirectional then 2 * v else v
  }

  /** `"AC"` with alpha 0.5: the earlier `A` is decayed once, the final `C` not at all. */
  lemma FofeExample()
    ensures ForwardSum(map['A' := 0, 'C' := 1], "AC", 0, 0.5, 2) == 0.5
    ensures ForwardSum(map['A' := 0, 'C' := 1], "AC", 1, 0.5, 2) == 1.0
  {
    var index := map['A' := 0, 'C' := 1];
    assert Pow(0.5, 1) == 0.5;
    assert Hit(index, 'A', 0) && !Hit(index, 'C', 0);
    assert Hit(index, 'C', 1) && !Hit(index, 'A', 1);
  }
}
