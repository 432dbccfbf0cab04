/**
 * BaseValidator.AddCommonValidations: the rules every create and update request
 * must pass, over the payload both requests share. Each rule is evaluated on its
 * own (FluentValidation's default), so the failure list holds one entry per rule
 * that fails, in the order the rules are declared.
 */
module BaseValidator {
  import opened MedicalTypes
  import opened ValidationRules

  /** Disability == "YES" demands a percentage between 0 and 100; otherwise the rule is switched off. */
  predicate DisabilityPercentageRule(b: RecordFields)
  {
    b.disability == Some("YES") ==>
      b.disabilityPercentage.Some? && 0 <= b.disabilityPercentage.value <= 100
  }

  /**
   * PositionChange == "YES" demands non-blank observations of at most 2000 characters.
   * The When clause closes the whole chain, so it also guards the length ceiling.
   */
  predicate ObservationsRule(b: RecordFields)
  {
    b.positionChange == Some("YES") ==>
      WithinLength(b.observations, 2000) && HasText(b.observations)
  }

  /** The common rules, one conjunct per rule. */
  predicate CommonRulesHold(b: RecordFields)
  {
    && WithinLength(b.diagnosis, 100)
    && WithinLength(b.motherData, 2000)
    && WithinLength(b.fatherData, 2000)
    && WithinLength(b.otherFamilyData, 2000)
    && WithinLength(b.medicalBoard, 200)
    && ObservationsRule(b)
    && (forall flag: Flag :: IsYesNo(flag.ValueIn(b)))
    && DisabilityPercentageRule(b)
  }

  /** The rule behind each common failure is broken (false for the failures of the other validators). */
  predicate CommonRuleBroken(f: Failure, b: RecordFields)
  {
    match f
    case DiagnosisTooLong => !WithinLength(b.diagnosis, 100)
    case MotherDataTooLong => !WithinLength(b.motherData, 2000)
    case FatherDataTooLong => !WithinLength(b.fatherData, 2000)
    case OtherFamilyDataTooLong => !WithinLength(b.otherFamilyData, 2000)
    case MedicalBoardTooLong => !WithinLength(b.medicalBoard, 200)
    case ObservationsTooLong => b.positionChange == Some("YES") && !WithinLength(b.observations, 2000)
    case ObservationsRequired => b.positionChange == Some("YES") && !HasText(b.observations)
    case FlagNotYesNo(flag) => !IsYesNo(flag.ValueIn(b))
    case DisabilityPercentageOutOfRange => !DisabilityPercentageRule(b)
    case _ => false
  }

  predicate IsLengthFailure(f: Failure)
  {
    f.DiagnosisTooLong? || f.MotherDataTooLong? || f.FatherDataTooLong? || f.OtherFamilyDataTooLong? || f.MedicalBoardTooLong?
  }

  /**
   * The failures of the common rules, in declaration order: a failure is reported
   * exactly when its own rule is broken, whatever the other rules say.
   */
  function CommonFailures(b: RecordFields): (r: seq<Failure>)
    ensures forall f :: f in r <==> CommonRuleBroken(f, b)
    ensures r == [] <==> CommonRulesHold(b)
  {
    var lengths := LengthFailures(b);
    var observations := ObservationsFailures(b);
    var flags := FlagFailures(b);
    var percentage := Check(DisabilityPercentageRule(b), DisabilityPercentageOutOfRange);
    var r := lengths + observations + flags + percentage;
    assert forall f :: f in r <==> CommonRuleBroken(f, b) by {
      forall f ensures f in r <==> CommonRuleBroken(f, b) {
        assert f in r <==> f in lengths || f in observations || f in flags || f in percentage;
      }
    }
    assert r == [] <==> CommonRulesHold(b) by {
      if r != [] {
        assert CommonRuleBroken(r[0], b);
      }
      if !CommonRulesHold(b) {
        if !(forall flag: Flag :: IsYesNo(flag.ValueIn(b))) {
          var flag: Flag :| !IsYesNo(flag.ValueIn(b));
          assert FlagNotYesNo(flag) in r;
        } else if !DisabilityPercentageRule(b) {
          assert DisabilityPercentageOutOfRange in r;
        }
      }
    }
    r
  }

  /** The five length ceilings, in declaration order. */
  function LengthFailures(b: RecordFields): (r: seq<Failure>)
    ensures forall f :: f in r <==> IsLengthFailure(f) && CommonRuleBroken(f, b)
  {
    Check(WithinLength(b.diagnosis, 100), DiagnosisTooLong)
    + Check(WithinLength(b.motherData, 2000), MotherDataTooLong)
    + Check(WithinLength(b.fatherData, 2000), FatherDataTooLong)
    + Check(WithinLength(b.otherFamilyData, 2000), OtherFamilyDataTooLong)
    + Check(WithinLength(b.medicalBoard, 200), MedicalBoardTooLong)
  }

  /** The Observations chain: both of its validators sit under When(PositionChange == "YES"). */
  function ObservationsFailures(b: RecordFields): (r: seq<Failure>)
    ensures forall f :: f in r <==> (f.ObservationsTooLong? || f.ObservationsRequired?) && CommonRuleBroken(f, b)
  {
    if b.positionChange == Some("YES") then
      Check(WithinLength(b.observations, 2000), ObservationsTooLong)
      + Check(HasText(b.observations), ObservationsRequired)
    else []
  }

  /** The seven flag rules, in declaration order. */
  function FlagFailures(b: RecordFields): (r: seq<Failure>)
    ensures forall f :: f in r <==> f.FlagNotYesNo? && CommonRuleBroken(f, b)
  {
    Check(IsYesNo(b.audiometry), FlagNotYesNo(Audiometry))
    + Check(IsYesNo(b.positionChange), FlagNotYesNo(PositionChange))
    + Check(IsYesNo(b.executeMicros), FlagNotYesNo(ExecuteMicros))
    + Check(IsYesNo(b.executeExtra), FlagNotYesNo(ExecuteExtra))
    + Check(IsYesNo(b.voiceEvaluation), FlagNotYesNo(VoiceEvaluation))
    + Check(IsYesNo(b.disability), FlagNotYesNo(Disability))
    + Check(IsYesNo(b.areaChange), FlagNotYesNo(AreaChange))
  }

  /** Whatever the percentage, the percentage rule never fails unless Disability is "YES". */
  lemma PercentageIgnoredUnlessDisabled(b: RecordFields, percentage: Option<int>)
    requires b.disability != Some("YES")
    ensures CommonFailures(b.(disabilityPercentage := percentage)) == CommonFailures(b)
  {
  }

  /** Whatever the observations, they are unconstrained unless PositionChange is "YES". */
  lemma ObservationsIgnoredUnlessPositionChange(b: RecordFields, observations: Option<string>)
    requires b.positionChange != Some("YES")
    ensures CommonFailures(b.(observations := observations)) == CommonFailures(b)
  {
  }
}
