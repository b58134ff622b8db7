/** Sequence preparation (start/stop affixes, right padding with the gap
    token) and the length checks shared by the fixed-shape encoders. */
module Preparation {
  import opened Wrappers
  import opened Vocabulary

  /** Everything an encoding call can fail with. */
  datatype EncodeError =
    | EmptyBatch                                              // `max` over no peptides
    | TooLong(observed: nat, maxLength: nat, example: string) // variable-length mode
    | WrongLength(expected: nat, example: string, actual: nat) // fixed-length mode
    | UnknownToken(token: char)                               // a character with no table entry
    | UnsupportedExtraFeatures                                // index encoding with extra channels

  function Max(a: int, b: int): int { if a < b then b else a }

  /** A peptide with the start token in front and the stop token behind, as enabled. */
  function Affix(cfg: Config, p: string): (q: string)
    ensures |q| == |p| + B2N(cfg.addStartTokens) + B2N(cfg.addStopTokens)
  {
    (if cfg.addStartTokens then [Start] else []) + p + (if cfg.addStopTokens then [Stop] else [])
  }

  function Gaps(n: nat): (g: string)
    ensures |g| == n
  {
    seq(n, _ => Gap)
  }

  /** `core` followed by nothing but gap tokens. */
  ghost predicate PaddedFrom(s: string, core: string) {
    |core| <= |s| && s[..|core|] == core && forall j :: |core| <= j < |s| ==> s[j] == Gap
  }

  /** Right-pad `s` with gap tokens up to length `n`; a shorter `n` leaves `s` alone. */
  function PadRight(s: string, n: int): (r: string)
    ensures PaddedFrom(r, s)
    ensures |r| == Max(|s|, n)
  {
    if |s| < n then s + Gaps(n - |s|) else s
  }

  /** Python truthiness of an optional integer: absent and zero are false. */
  function Truthy(t: Option<int>): bool { t.Some? && t.value != 0 }

  /** The requested padded length, raised by one for each enabled affix while it is truthy. */
  function PaddingTarget(cfg: Config, padTo: Option<int>): Option<int> {
    var afterStart := if cfg.addStartTokens && Truthy(padTo) then Some(padTo.value + 1) else padTo;
    if cfg.addStopTokens && Truthy(afterStart) then Some(afterStart.value + 1) else afterStart
  }

  function PadLength(padTo: Option<int>): int { if padTo.Some? then padTo.value else 0 }

  /** `prepare_sequences`: affix every peptide, then pad to the adjusted target if there is one. */
  function PrepareSequences(cfg: Config, peptides: seq<string>, padTo: Option<int> := None): (r: seq<string>)
    ensures |r| == |peptides|
    ensures forall i :: 0 <= i < |r| ==> PaddedFrom(r[i], Affix(cfg, peptides[i]))
    ensures forall i :: 0 <= i < |r| ==>
      |r[i]| == Max(|peptides[i]|, PadLength(padTo)) + B2N(cfg.addStartTokens) + B2N(cfg.addStopTokens)
    ensures padTo.None? ==> forall i :: 0 <= i < |r| ==> r[i] == Affix(cfg, peptides[i])
  {
    var target := PaddingTarget(cfg, padTo);
    seq(|peptides|, i requires 0 <= i < |peptides| =>
      if Truthy(target) then PadRight(Affix(cfg, peptides[i]), target.value) else Affix(cfg, peptides[i]))
  }

  /** The length of the longest peptide. */
  function Longest(peptides: seq<string>): (m: nat)
    requires peptides != []
    ensures forall i :: 0 <= i < |peptides| ==> |peptides[i]| <= m
    ensures exists i :: 0 <= i < |peptides| && |peptides[i]| == m
  {
    if |peptides| == 1 then |peptides[0]|
    else
      var rest := Longest(peptides[1..]);
      assert forall i :: 1 <= i < |peptides| ==> peptides[i] == peptides[1..][i - 1];
      if |peptides[0]| < rest then rest else |peptides[0]|
  }

  /** The first position whose length equals `n` (when `equal`) or differs from it (otherwise). */
  function FirstWithLength(peptides: seq<string>, n: int, equal: bool): (r: Option<nat>)
    ensures r.None? <==> forall i :: 0 <= i < |peptides| ==> (|peptides[i]| == n) != equal
    ensures r.Some? ==> r.value < |peptides| && (|peptides[r.value]| == n) == equal
    ensures r.Some? ==> forall i :: 0 <= i < r.value ==> (|peptides[i]| == n) != equal
    decreases |peptides|
  {
    if peptides == [] then None
    else if (|peptides[0]| == n) == equal then Some(0)
    else
      var rest := FirstWithLength(peptides[1..], n, equal);
      assert forall i :: 1 <= i < |peptides| ==> peptides[i] == peptides[1..][i - 1];
      match rest
      case None => None
      case Some(k) => Some(k + 1)
  }

  /** The limit the lengths are checked against: the one given, else the longest peptide. */
  function RequestedMax(peptides: seq<string>, maxLength: Option<nat>): nat {
    if maxLength.Some? then maxLength.value
    else if peptides == [] then 0
    else Longest(peptides)
  }

  /** The length rule of each mode: a ceiling when lengths may vary, equality otherwise. */
  ghost predicate LengthsAccepted(cfg: Config, peptides: seq<string>, m: int) {
    if cfg.variableLengthSequences then forall i :: 0 <= i < |peptides| ==> |peptides[i]| <= m
    else forall i :: 0 <= i < |peptides| ==> |peptides[i]| == m
  }

  /** `_validate_peptide_lengths`: the limit every peptide is checked against, or why the batch is refused. */
  function ValidatePeptideLengths(cfg: Config, peptides: seq<string>, maxLength: Option<nat> := None): (r: Result<nat, EncodeError>)
    ensures r.Success? <==>
      && (maxLength.Some? || peptides != [])
      && (cfg.variableLengthSequences ==> peptides != [])
      && LengthsAccepted(cfg, peptides, RequestedMax(peptides, maxLength))
    ensures (maxLength.None? || cfg.variableLengthSequences) && peptides == [] ==> r == Failure(EmptyBatch)
    ensures r.Success? && maxLength.Some? ==> r.value == maxLength.value
    ensures r.Success? && maxLength.None? ==>
      r.value in (set i | 0 <= i < |peptides| :: |peptides[i]|) &&
      forall i :: 0 <= i < |peptides| ==> |peptides[i]| <= r.value
    ensures r.Failure? && r.error.TooLong? ==>
      && cfg.variableLengthSequences
      && r.error.maxLength == RequestedMax(peptides, maxLength) < r.error.observed
      && r.error.example in peptides
      && |r.error.example| == r.error.observed
      && (exists k :: 0 <= k < |peptides| && peptides[k] == r.error.example
            && forall j :: 0 <= j < k ==> |peptides[j]| != r.error.observed)
      && forall i :: 0 <= i < |peptides| ==> |peptides[i]| <= r.error.observed
    ensures r.Failure? && r.error.WrongLength? ==>
      && !cfg.variableLengthSequences
      && r.error.expected == RequestedMax(peptides, maxLength)
      && r.error.example in peptides
      && r.error.actual == |r.error.example| != r.error.expected
      && (exists k :: 0 <= k < |peptides| && peptides[k] == r.error.example
            && forall j :: 0 <= j < k ==> |peptides[j]| == r.error.expected)
    ensures r.Failure? ==> r.error.EmptyBatch? || r.error.TooLong? || r.error.WrongLength?
  {
    if maxLength.None? && peptides == [] then Failure(EmptyBatch)
    else
      var m := RequestedMax(peptides, maxLength);
      if cfg.variableLengthSequences then
        if peptides == [] then Failure(EmptyBatch)
        else
          var observed := Longest(peptides);
          if observed > m then
            var example := FirstWithLength(peptides, observed, true).value;
            Failure(TooLong(observed, m, peptides[example]))
          else Success(m)
      else
        match FirstWithLength(peptides, m, false)
        case Some(k) => Failure(WrongLength(m, peptides[k], |peptides[k]|))
        case None => Success(m)
  }

  /** `_validate_and_prepare_peptides`: check the lengths, affix without padding,
      and widen the limit by the affixes; every prepared peptide fits in it. */
  function ValidateAndPreparePeptides(cfg: Config, peptides: seq<string>, maxLength: Option<nat> := None)
    : (r: Result<(seq<string>, nat), EncodeError>)
    ensures r.Success? <==> ValidatePeptideLengths(cfg, peptides, maxLength).Success?
    ensures r.Failure? ==> r.error == ValidatePeptideLengths(cfg, peptides, maxLength).error
    ensures r.Success? ==>
      && r.value.0 == PrepareSequences(cfg, peptides, None)
      && r.value.1 == ValidatePeptideLengths(cfg, peptides, maxLength).value
                      + B2N(cfg.addStartTokens) + B2N(cfg.addStopTokens)
      && (forall i :: 0 <= i < |r.value.0| ==> r.value.0[i] == Affix(cfg, peptides[i]))
      && (forall i :: 0 <= i < |r.value.0| ==> |r.value.0[i]| <= r.value.1)
      && (!cfg.variableLengthSequences ==> forall i :: 0 <= i < |r.value.0| ==> |r.value.0[i]| == r.value.1)
  {
    match ValidatePeptideLengths(cfg, peptides, maxLength)
    case Failure(e) => Failure(e)
    case Success(m) =>
      var prepared := PrepareSequences(cfg, peptides, None);
      Success((prepared, m + B2N(cfg.addStartTokens) + B2N(cfg.addStopTokens)))
  }

  /** Padding a validated peptide to the effective length gives what
      `prepare_sequences` produces when asked to pad to the checked limit. */
  lemma PaddedPreparation(cfg: Config, peptides: seq<string>, maxLength: Option<nat>, i: nat)
    requires ValidateAndPreparePeptides(cfg, peptides, maxLength).Success?
    requires i < |peptides|
    ensures
      var m := ValidatePeptideLengths(cfg, peptides, maxLength).value;
      var (prepared, len) := ValidateAndPreparePeptides(cfg, peptides, maxLength).value;
      PadRight(prepared[i], len) == PrepareSequences(cfg, peptides, Some(m))[i]
  {
    var m := ValidatePeptideLengths(cfg, peptides, maxLength).value;
    var (prepared, len) := ValidateAndPreparePeptides(cfg, peptides, maxLength).value;
    var q := Affix(cfg, peptides[i]);
    var padded := PrepareSequences(cfg, peptides, Some(m))[i];
    assert PaddedFrom(padded, q);
    assert |PadRight(q, len)| == |padded|;
    assert padded == PadRight(q, len) by {
      forall j | 0 <= j < |padded| ensures padded[j] == PadRight(q, len)[j] {
        if j < |q| {
          assert padded[..|q|][j] == q[j];
          assert PadRight(q, len)[..|q|][j] == q[j];
        }
      }
    }
  }

  /** `["AC"]` padded to 6 with both affixes enabled: the target grows to 8. */
  lemma PrepareExampleBothAffixes()
    ensures PrepareSequences(Config(true, true, true, false, false), ["AC"], Some(6)) == ["^AC$----"]
  {
    var cfg := Config(true, true, true, false, false);
    var r := PrepareSequences(cfg, ["AC"], Some(6));
    assert PaddingTarget(cfg, Some(6)) == Some(8);
    assert Affix(cfg, "AC") == "^AC$";
    assert Gaps(4) == "----";
    assert r[0] == PadRight("^AC$", 8) == "^AC$" + "----";
    assert "^AC$" + "----" == "^AC$----";
    assert r == [r[0]];
  }

  /** `["AC"]` padded to 5 with no affixes. */
  lemma PrepareExampleNoAffixes()
    ensures PrepareSequences(Config(true, false, false, false, false), ["AC"], Some(5)) == ["AC---"]
  {
    var cfg := Config(true, false, false, false, false);
    var r := PrepareSequences(cfg, ["AC"], Some(5));
    assert Affix(cfg, "AC") == "AC";
    assert Gaps(3) == "---";
    assert r[0] == PadRight("AC", 5) == "AC" + "---";
    assert "AC" + "---" == "AC---";
    assert r == [r[0]];
  }
}
