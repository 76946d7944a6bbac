/**
 Phase selection of the trainer: the `--phase` option names one of four
 training phases by its digit, and each of four independent tests runs its
 phase when the option is set and equal to that digit.
 */
module Phases {
  import opened Wrappers

  datatype Phase = PrepareCorpus | TrainVocoder | TrainEncoder | TrainParallelVocoder

  /** The option value that selects a phase. */
  function PhaseDigit(p: Phase): (d: string)
    ensures |d| == 1 && '1' <= d[0] <= '4'
  {
    match p
    case PrepareCorpus => "1"
    case TrainVocoder => "2"
    case TrainEncoder => "3"
    case TrainParallelVocoder => "4"
  }

  /** The phase an option value names, if any. */
  function PhaseNamed(value: string): Option<Phase> {
    if value == "1" then Some(PrepareCorpus)
    else if value == "2" then Some(TrainVocoder)
    else if value == "3" then Some(TrainEncoder)
    else if value == "4" then Some(TrainParallelVocoder)
    else None
  }

  /** The digits and the phases correspond one to one. */
  lemma PhaseDigitRoundTrip(p: Phase, value: string)
    ensures PhaseNamed(PhaseDigit(p)) == Some(p)
    ensures PhaseNamed(value) == Some(p) <==> value == PhaseDigit(p)
    ensures PhaseNamed(value).None? <==> value !in {"1", "2", "3", "4"}
  {
  }

  /** Python truthiness of the option: unset or empty is false. */
  predicate IsSet(option: Option<string>) {
    option.Some? && option.value != ""
  }

  /** One test `if params.phase and params.phase == digit`. */
  function RunIf(option: Option<string>, p: Phase): (run: seq<Phase>)
    ensures run == [p] <==> IsSet(option) && option.value == PhaseDigit(p)
    ensures run == [] <==> !(IsSet(option) && option.value == PhaseDigit(p))
  {
    if IsSet(option) && option.value == PhaseDigit(p) then [p] else []
  }

  /** The phases the trainer runs, in order: the four tests one after
      another. At most one phase runs, and it is the one the option names. */
  function Dispatch(option: Option<string>): (run: seq<Phase>)
    ensures |run| <= 1
    ensures forall p :: run == [p] <==> option == Some(PhaseDigit(p))
    ensures run == [] <==> option.None? || PhaseNamed(option.value).None?
  {
    var run := RunIf(option, PrepareCorpus) + RunIf(option, TrainVocoder)
      + RunIf(option, TrainEncoder) + RunIf(option, TrainParallelVocoder);
    var named := if option.Some? then PhaseNamed(option.value) else None;
    assert run == if named.Some? then [named.value] else [];
    assert forall p :: named == Some(p) <==> option == Some(PhaseDigit(p)) by {
      forall p ensures named == Some(p) <==> option == Some(PhaseDigit(p)) {
        if option.Some? {
          PhaseDigitRoundTrip(p, option.value);
        }
      }
    }
    run
  }
}
